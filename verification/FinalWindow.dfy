/** Final sliding-window retention (overlay/patch_swa_final_window.py): the hold that keeps a
    freed request's last checkpoints allocated, and the hashing of their tails. */
module FinalWindow {
  import opened Wrappers
  import opened Arithmetic

  // ---------------------------------------------------------------------------
  // Rounding.

  function Floor(x: int, d: nat): int
    requires d > 0
  {
    x / d * d
  }

  /** x is k times d. */
  ghost predicate Times(x: int, k: int, d: nat) {
    x == k * d
  }

  lemma FloorIs(x: int, d: nat)
    requires d > 0
    ensures Times(Floor(x, d), x / d, d)
    ensures Floor(x, d) <= x < Floor(x, d) + d
  {
    assert x == x / d * d + x % d;
  }

  lemma TimesOrder(x: int, k: int, y: int, m: int, d: nat)
    requires Times(x, k, d) && Times(y, m, d)
    ensures k <= m ==> x <= y
    ensures k < m ==> x + d <= y
    ensures Times(x - y, k - m, d) && Times(x + y, k + m, d)
  {
    MulMonotone(k, m, d);
    MulMonotone(k + 1, m, d);
    assert (k + 1) * d == k * d + d;
  }

  lemma DivOfTimes(x: int, k: int, d: nat)
    requires d > 0 && Times(x, k, d)
    ensures x / d == k
  {
    FloorIs(x, d);
    if k < x / d {
      TimesOrder(x, k, Floor(x, d), x / d, d);
    } else if x / d < k {
      TimesOrder(Floor(x, d), x / d, x, k, d);
    }
  }

  /** Below a multiple, the quotient is at most its factor. */
  lemma DivAtMost(x: int, y: int, k: int, d: nat)
    requires d > 0 && Times(y, k, d) && x <= y
    ensures x / d <= k
  {
    FloorIs(x, d);
    if k < x / d {
      TimesOrder(y, k, Floor(x, d), x / d, d);
    }
  }

  // ---------------------------------------------------------------------------
  // The sliding-window group and its checkpoints.

  /** A sliding-window group. `align` counts in tokens and is a whole number of blocks. */
  datatype Group = Group(window: nat, bs: nat, alignBlocks: nat, eagle: bool) {
    function Align(): nat { alignBlocks * bs }
    ghost predicate Valid() { window > 0 && bs > 0 && alignBlocks > 0 }
    /** The blocks of a window: ceil((W - 1) / bs). */
    function WindowBlocks(): nat requires Valid() { CeilDiv(window - 1, bs) }
    function Shift(): nat { if eagle then 1 else 0 }
    /** _contiguous_blocks_for_hit. */
    function Need(): nat requires Valid() { WindowBlocks() + Shift() }
    function Peek(): nat { if eagle then bs else 0 }
  }

  /** _dsv41_swa_final_hold_tokens. */
  function HoldTokens(window: nat, bs: nat, alignment: nat, peekBlocks: nat, keep: nat): nat
    requires window > 0 && bs > 0
  {
    var lag := alignment + peekBlocks * bs - 1 + keep;
    var span := CeilDiv(window - 1, bs) * bs;
    Max(0, lag - (window - 1) + span)
  }

  /** The newest checkpoint that C computed tokens complete. */
  function EndBoundary(g: Group, computed: nat): int
    requires g.Valid() && g.Align() > 0
  {
    Floor(Floor(computed, g.bs) - g.Peek(), g.Align())
  }

  /** The newest checkpoint that every continuation may use under the truncated prefill. */
  function YocoBoundary(g: Group, tokens: nat, keep: nat): int
    requires g.Valid() && g.Align() > 0
  {
    Floor(tokens - keep - g.Peek(), g.Align())
  }

  /** h is a checkpoint whose tail, with the peek block, the computed blocks complete. */
  predicate Complete(g: Group, computed: nat, h: int)
    requires g.Valid()
  {
    h >= g.Align() && h + g.Peek() <= Floor(computed, g.bs)
  }

  /** _dsv41_swa_final_boundaries: the complete ones of the two, without repeats, in order. */
  function Boundaries(g: Group, computed: nat, tokens: nat, keep: nat): (hits: seq<nat>)
    requires g.Valid() && g.Align() > 0
    ensures forall h: nat :: h in hits <==>
              Complete(g, computed, h)
              && (h == EndBoundary(g, computed) || (keep > 0 && h == YocoBoundary(g, tokens, keep)))
    ensures forall i, j :: 0 <= i < j < |hits| ==> hits[i] < hits[j]
  {
    var e, y := EndBoundary(g, computed), YocoBoundary(g, tokens, keep);
    var end: seq<nat> := if Complete(g, computed, e) then [e] else [];
    var yoco: seq<nat> := if keep > 0 && e != y && Complete(g, computed, y) then [y] else [];
    if e < y then end + yoco else yoco + end
  }

  /** The blocks of a window are the fewest that hold the window - 1 tokens before a position. */
  lemma WindowBlocksAre(g: Group, n: nat)
    requires g.Valid()
    ensures g.WindowBlocks() <= n <==> g.window - 1 <= n * g.bs
  {
    var x := g.window - 1 + g.bs - 1;
    FloorIs(x, g.bs);
    assert Times(n * g.bs, n, g.bs);
    TimesOrder(Floor(x, g.bs), x / g.bs, n * g.bs, n, g.bs);
    TimesOrder(n * g.bs, n, Floor(x, g.bs), x / g.bs, g.bs);
  }

  /** Rounding down finds the largest multiple. */
  lemma LargestMultiple(limit: int, d: nat, m: int, h: int)
    requires d > 0 && h == Floor(limit, d)
    ensures h <= limit && (m * d <= limit ==> m * d <= h)
  {
    FloorIs(limit, d);
    assert Times(m * d, m, d);
    TimesOrder(h, limit / d, m * d, m, d);
    TimesOrder(m * d, m, h, limit / d, d);
  }

  /** Every final checkpoint is complete with its peek block, and no complete one of the same kind
      is newer: of all of them, or of those that any continuation may still use. */
  lemma NewestBoundary(g: Group, computed: nat, tokens: nat, keep: nat, h: nat, m: int)
    requires g.Valid() && g.Align() > 0 && h in Boundaries(g, computed, tokens, keep)
    ensures h + g.Peek() <= computed
    ensures (m * g.Align() + g.Peek() <= Floor(computed, g.bs) ==> m * g.Align() <= h)
            || (keep > 0 && h + g.Peek() + keep <= tokens
                && (m * g.Align() + g.Peek() + keep <= tokens ==> m * g.Align() <= h))
  {
    FloorIs(computed, g.bs);
    if h == EndBoundary(g, computed) {
      LargestMultiple(Floor(computed, g.bs) - g.Peek(), g.Align(), m, h);
    } else {
      LargestMultiple(tokens - keep - g.Peek(), g.Align(), m, h);
    }
  }

  lemma AlignPositive(g: Group)
    requires g.Valid()
    ensures g.Align() >= g.bs && Times(g.Align(), g.alignBlocks, g.bs)
  {
    MulMonotone(1, g.alignBlocks, g.bs);
  }

  /** Rounding a multiple of the block size down to the alignment loses less than the alignment
      by a whole block. */
  lemma AlignedLoss(g: Group, x: int, k: int)
    requires g.Valid() && Times(x, k, g.bs)
    ensures g.Align() > 0
    ensures Floor(x, g.Align()) <= x <= Floor(x, g.Align()) + g.Align() - g.bs
    ensures exists m: int :: Times(Floor(x, g.Align()), m, g.bs)
  {
    AlignPositive(g);
    FloorIs(x, g.Align());
    var f, q := Floor(x, g.Align()), x / g.Align();
    assert Times(f, q * g.alignBlocks, g.bs) by {
      assert q * g.alignBlocks * g.bs == q * (g.alignBlocks * g.bs);
    }
    var m := q * g.alignBlocks;
    TimesOrder(f, m, x, k, g.bs);
    TimesOrder(x, k, f, m, g.bs);
    TimesOrder(f, m, g.Align(), g.alignBlocks, g.bs);
    TimesOrder(f + g.Align(), m + g.alignBlocks, x, k, g.bs);
    TimesOrder(x, k, f + g.Align(), m + g.alignBlocks, g.bs);
  }

  lemma PeekTimes(g: Group)
    ensures Times(g.Peek(), g.Shift(), g.bs)
  {
  }

  /** B_end lies less than an alignment and a peek below the computed count. */
  lemma EndLag(g: Group, computed: nat)
    requires g.Valid()
    ensures g.Align() > 0
    ensures computed - EndBoundary(g, computed) <= g.Align() + g.Peek() - 1
    ensures exists m: int :: Times(EndBoundary(g, computed), m, g.bs)
  {
    var full := Floor(computed, g.bs);
    FloorIs(computed, g.bs);
    PeekTimes(g);
    TimesOrder(full, computed / g.bs, g.Peek(), g.Shift(), g.bs);
    AlignedLoss(g, full - g.Peek(), computed / g.bs - g.Shift());
  }

  /** B_yoco lies at most KEEP further down. */
  lemma YocoLag(g: Group, computed: nat, tokens: nat, keep: nat)
    requires g.Valid() && computed <= tokens
    ensures g.Align() > 0
    ensures computed - YocoBoundary(g, tokens, keep) <= g.Align() + g.Peek() + keep - 1
    ensures exists m: int :: Times(YocoBoundary(g, tokens, keep), m, g.bs)
  {
    AlignPositive(g);
    var x := tokens - keep - g.Peek();
    FloorIs(x, g.Align());
    var q := x / g.Align();
    assert Times(Floor(x, g.Align()), q * g.alignBlocks, g.bs) by {
      assert q * g.alignBlocks * g.bs == q * (g.alignBlocks * g.bs);
    }
  }

  /** Every checkpoint is a whole number of blocks and lags the computed count by no more than
      the hold reckons with. */
  lemma BoundaryLag(g: Group, computed: nat, tokens: nat, keep: nat, h: nat)
    requires g.Valid() && g.Align() > 0 && computed <= tokens && h in Boundaries(g, computed, tokens, keep)
    ensures Times(h, h / g.bs, g.bs)
    ensures computed - h <= g.Align() + g.Peek() + keep - 1
  {
    EndLag(g, computed);
    YocoLag(g, computed, tokens, keep);
    var m: int :| Times(h, m, g.bs);
    DivOfTimes(h, m, g.bs);
  }

  // ---------------------------------------------------------------------------
  // What a free skips.

  /** get_num_skipped_tokens, in blocks (remove_skipped_blocks). */
  function SkippedBlocks(g: Group, extra: nat, processed: nat): nat
    requires g.Valid()
  {
    var skipped := processed - g.window + 1 - extra;
    if skipped <= 0 then 0 else skipped / g.bs
  }

  /** A block is skipped exactly when all its tokens lie below the window and what is retained. */
  lemma SkippedIff(g: Group, extra: nat, processed: nat, i: nat)
    requires g.Valid()
    ensures i < SkippedBlocks(g, extra, processed) <==> (i + 1) * g.bs <= processed - g.window + 1 - extra
  {
    var x := processed - g.window + 1 - extra;
    FloorIs(x, g.bs);
    assert Times((i + 1) * g.bs, i + 1, g.bs) && (i + 1) * g.bs >= g.bs;
    TimesOrder(Floor(x, g.bs), x / g.bs, (i + 1) * g.bs, i + 1, g.bs);
    TimesOrder((i + 1) * g.bs, i + 1, Floor(x, g.bs), x / g.bs, g.bs);
  }

  lemma SkippedMonotone(g: Group, extra: nat, a: nat, b: nat)
    requires g.Valid() && a <= b
    ensures SkippedBlocks(g, extra, a) <= SkippedBlocks(g, extra, b)
  {
    var x, y := a - g.window + 1 - extra, b - g.window + 1 - extra;
    FloorIs(x, g.bs);
    FloorIs(y, g.bs);
    if y / g.bs < x / g.bs {
      TimesOrder(Floor(y, g.bs), y / g.bs, Floor(x, g.bs), x / g.bs, g.bs);
    }
    if y > 0 && y / g.bs < 0 {
      TimesOrder(Floor(y, g.bs), y / g.bs, 0, 0, g.bs);
    }
  }

  /** The first block of a checkpoint's tail. */
  function TailStart(g: Group, h: nat): nat
    requires g.Valid()
  {
    Max(0, h / g.bs + g.Shift() - g.Need())
  }

  /** With the hold, a free after `computed` tokens does not reach the tail of any final
      checkpoint: with or without the peek block, for any KEEP. */
  lemma HoldCovers(g: Group, alignment: nat, extra: nat, computed: nat, tokens: nat, keep: nat, h: nat)
    requires g.Valid() && 0 < g.Align() <= alignment && computed <= tokens
    requires h in Boundaries(g, computed, tokens, keep)
    ensures SkippedBlocks(g, extra + HoldTokens(g.window, g.bs, alignment, 1, keep), computed) <= TailStart(g, h)
  {
    BoundaryLag(g, computed, tokens, keep, h);
    var hold := HoldTokens(g.window, g.bs, alignment, 1, keep);
    var x := computed - g.window + 1 - (extra + hold);
    var w := g.WindowBlocks();
    assert Times(w * g.bs, w, g.bs);
    TimesOrder(h, h / g.bs, w * g.bs, w, g.bs);
    assert x <= h - w * g.bs;
    DivAtMost(x, h - w * g.bs, h / g.bs - w, g.bs);
  }

  /** The hold keeps at most ceil(hold / bs) blocks alive that stock would have freed, which is
      what the admission cap grows by. */
  lemma AdmissionCovers(g: Group, extra: nat, hold: nat, processed: nat)
    requires g.Valid()
    ensures SkippedBlocks(g, extra + hold, processed) <= SkippedBlocks(g, extra, processed)
    ensures SkippedBlocks(g, extra, processed) <= SkippedBlocks(g, extra + hold, processed) + CeilDiv(hold, g.bs)
  {
    var x, c := processed - g.window + 1 - extra, CeilDiv(hold, g.bs);
    var y := x - hold;
    FloorIs(x, g.bs);
    FloorIs(y, g.bs);
    FloorIs(hold + g.bs - 1, g.bs);
    var fx, fy, fc := Floor(x, g.bs), Floor(y, g.bs), Floor(hold + g.bs - 1, g.bs);
    TimesOrder(fy, y / g.bs, fc, c, g.bs);
    TimesOrder(fx, x / g.bs, fy + fc, y / g.bs + c, g.bs);
    TimesOrder(fy + fc, y / g.bs + c, fx, x / g.bs, g.bs);
    TimesOrder(fy, y / g.bs, fx, x / g.bs, g.bs);
    TimesOrder(fx, x / g.bs, fy, y / g.bs, g.bs);
    TimesOrder(0, 0, fy, y / g.bs, g.bs);
    TimesOrder(fx, x / g.bs, fc, c, g.bs);
    TimesOrder(fc, c, fx, x / g.bs, g.bs);
  }

  lemma FloorUnique(x: int, h: int, m: int, d: nat)
    requires d > 0 && Times(h, m, d) && h <= x < h + d
    ensures Floor(x, d) == h
  {
    FloorIs(x, d);
    TimesOrder(Floor(x, d), x / d, h, m, d);
    TimesOrder(h, m, Floor(x, d), x / d, d);
  }

  /** A checkpoint that lags as far as one can. */
  lemma LargestLag(g: Group, keep: nat, m: nat)
    requires g.Valid() && g.eagle && m > 0
    ensures g.Align() > 0
    ensures var computed := m * g.Align() + g.Align() + g.bs - 1 + keep;
            m * g.Align() in Boundaries(g, computed, computed, keep)
  {
    AlignPositive(g);
    var h := m * g.Align();
    var computed := h + g.Align() + g.bs - 1 + keep;
    MulMonotone(1, m, g.Align());
    assert Times(h, m * g.alignBlocks, g.bs) by {
      assert m * g.alignBlocks * g.bs == m * (g.alignBlocks * g.bs);
    }
    FloorIs(computed, g.bs);
    if keep == 0 {
      TimesOrder(h, m * g.alignBlocks, g.Align(), g.alignBlocks, g.bs);
      FloorUnique(computed, h + g.Align(), m * g.alignBlocks + g.alignBlocks, g.bs);
      FloorUnique(h + g.Align() - g.bs, h, m, g.Align());
    } else {
      FloorUnique(computed - keep - g.bs, h, m, g.Align());
    }
  }

  /** The hold is tight: one block less, and some free reaches a checkpoint's tail. */
  lemma HoldIsTight(g: Group, keep: nat, m: nat)
    requires g.Valid() && g.eagle && m > 0 && m * g.Align() >= g.WindowBlocks() * g.bs
    requires HoldTokens(g.window, g.bs, g.Align(), 1, keep) >= g.bs
    ensures var h := m * g.Align();
            var computed := h + g.Align() + g.bs - 1 + keep;
            && h in Boundaries(g, computed, computed, keep)
            && SkippedBlocks(g, HoldTokens(g.window, g.bs, g.Align(), 1, keep) - g.bs, computed) == TailStart(g, h) + 1
  {
    LargestLag(g, keep, m);
    var h, w := m * g.Align(), g.WindowBlocks();
    var computed := h + g.Align() + g.bs - 1 + keep;
    BoundaryLag(g, computed, computed, keep, h);
    assert Times(w * g.bs, w, g.bs);
    TimesOrder(w * g.bs, w, h, h / g.bs, g.bs);
    TimesOrder(h, h / g.bs, w * g.bs, w, g.bs);
    var x := computed - g.window + 1 - (HoldTokens(g.window, g.bs, g.Align(), 1, keep) - g.bs);
    assert x == h - w * g.bs + g.bs;
    TimesOrder(h - w * g.bs, h / g.bs - w, g.bs, 1, g.bs);
    DivOfTimes(x, h / g.bs - w + 1, g.bs);
  }

  // ---------------------------------------------------------------------------
  // One request's blocks in one group.

  /** A block of the request: the null block where nothing is allocated any more, or a held
      block with its prefix-cache hash, if it has one. */
  datatype Block = Null | Held(hash: Option<nat>)

  function TailEnd(g: Group, h: nat): nat
    requires g.Valid()
  {
    h / g.bs + g.Shift()
  }

  predicate InTail(g: Group, h: nat, i: nat)
    requires g.Valid()
  {
    TailStart(g, h) <= i < TailEnd(g, h)
  }

  /** The tail of h is allocated. */
  predicate TailHeld(g: Group, blocks: seq<Block>, h: nat)
    requires g.Valid()
  {
    TailEnd(g, h) <= |blocks| && forall i :: TailStart(g, h) <= i < TailEnd(g, h) ==> blocks[i].Held?
  }

  /** A complete checkpoint's tail, peek block included, ends within the computed blocks. */
  lemma TailInRange(g: Group, computed: nat, tokens: nat, keep: nat, h: nat, total: nat)
    requires g.Valid() && g.Align() > 0 && computed <= total * g.bs
    requires h in Boundaries(g, computed, tokens, keep)
    requires exists m: int :: Times(h, m, g.bs)
    ensures Times(h, h / g.bs, g.bs)
    ensures TailEnd(g, h) <= computed / g.bs <= total
    ensures TailStart(g, h) < TailEnd(g, h) || g.Need() == 0
  {
    var m: int :| Times(h, m, g.bs);
    DivOfTimes(h, m, g.bs);
    FloorIs(computed, g.bs);
    PeekTimes(g);
    TimesOrder(h, m, g.Peek(), g.Shift(), g.bs);
    TimesOrder(Floor(computed, g.bs), computed / g.bs, h + g.Peek(), m + g.Shift(), g.bs);
    assert Times(total * g.bs, total, g.bs);
    TimesOrder(total * g.bs, total, Floor(computed, g.bs), computed / g.bs, g.bs);
    AlignPositive(g);
    TimesOrder(0, 0, h, m, g.bs);
    TimesOrder(h, m, 0, 0, g.bs);
  }

  /** h's tail ends within the computed blocks, whole blocks of computed tokens. */
  ghost predicate InRange(g: Group, computed: nat, total: nat, h: nat)
    requires g.Valid()
  {
    && TailEnd(g, h) <= computed / g.bs <= total
    && TailStart(g, h) <= TailEnd(g, h)
    && TailEnd(g, h) * g.bs <= computed
  }

  lemma TailsInRange(g: Group, computed: nat, tokens: nat, keep: nat, total: nat)
    requires g.Valid() && g.Align() > 0 && computed <= total * g.bs && computed <= tokens
    ensures forall h: nat :: h in Boundaries(g, computed, tokens, keep) ==> InRange(g, computed, total, h)
  {
    forall h: nat | h in Boundaries(g, computed, tokens, keep) ensures InRange(g, computed, total, h) {
      BoundaryLag(g, computed, tokens, keep, h);
      TailInRange(g, computed, tokens, keep, h, total);
      FloorIs(computed, g.bs);
      assert Times(TailEnd(g, h) * g.bs, TailEnd(g, h), g.bs);
      TimesOrder(TailEnd(g, h) * g.bs, TailEnd(g, h), Floor(computed, g.bs), computed / g.bs, g.bs);
    }
  }

  ghost predicate Fits(g: Group, h: nat, limit: nat)
    requires g.Valid()
  {
    TailStart(g, h) <= TailEnd(g, h) <= limit
  }

  ghost predicate Within(g: Group, h: nat, lo: nat, hi: nat)
    requires g.Valid()
  {
    lo <= TailStart(g, h) && TailEnd(g, h) <= hi
  }

  /** The tails of the hits lie within lo..hi. */
  ghost predicate AllFit(g: Group, hits: seq<nat>, lo: nat, hi: nat)
    requires g.Valid()
  {
    forall j :: 0 <= j < |hits| ==> Within(g, hits[j], lo, hi)
  }

  lemma FitOneMore(g: Group, hits: seq<nat>, lo: nat, hi: nat, h: nat, limit: nat)
    requires g.Valid() && AllFit(g, hits, lo, hi) && Fits(g, h, limit) && hi <= limit
    ensures var l, u := Min(lo, TailStart(g, h)), Max(hi, TailEnd(g, h));
            l <= u <= limit && AllFit(g, hits + [h], l, u)
  {
    var l, u := Min(lo, TailStart(g, h)), Max(hi, TailEnd(g, h));
    forall j | 0 <= j < |hits| + 1 ensures Within(g, (hits + [h])[j], l, u) {
      assert j < |hits| ==> Within(g, hits[j], lo, hi);
    }
  }

  lemma UsableOneMore(g: Group, blocks: seq<Block>, bounds: seq<nat>, k: nat)
    requires g.Valid() && k < |bounds|
    ensures Usable(g, blocks, bounds[..k + 1]) ==
            Usable(g, blocks, bounds[..k]) + if TailHeld(g, blocks, bounds[k]) then [bounds[k]] else []
  {
    assert bounds[..k + 1][..k] == bounds[..k];
  }

  function NullOut(b: seq<Block>, k: nat): (n: seq<Block>)
    ensures |n| == |b|
    ensures forall i :: 0 <= i < |b| ==> n[i] == if i < k then Null else b[i]
  {
    seq(|b|, i requires 0 <= i < |b| => if i < k then Null else b[i])
  }

  /** The checkpoints whose whole tail is still allocated, in order. */
  function Usable(g: Group, blocks: seq<Block>, hits: seq<nat>): (u: seq<nat>)
    requires g.Valid()
    ensures forall h :: h in u <==> h in hits && TailHeld(g, blocks, h)
  {
    if hits == [] then []
    else
      var h := hits[|hits| - 1];
      Usable(g, blocks, hits[..|hits| - 1]) + if TailHeld(g, blocks, h) then [h] else []
  }

  predicate InSomeTail(g: Group, hits: seq<nat>, i: nat)
    requires g.Valid()
  {
    exists k :: 0 <= k < |hits| && InTail(g, hits[k], i)
  }

  lemma OneMoreTail(g: Group, hits: seq<nat>, k: nat, i: nat)
    requires g.Valid() && k < |hits|
    ensures InSomeTail(g, hits[..k + 1], i) <==> InSomeTail(g, hits[..k], i) || InTail(g, hits[k], i)
  {
    var more, less := hits[..k + 1], hits[..k];
    assert more[k] == hits[k];
    assert forall j :: 0 <= j < k ==> more[j] == less[j];
  }

  /** The blocks without a hash in the given tails get theirs; nothing else changes. */
  ghost predicate HashedInTails(g: Group, was: seq<Block>, now: seq<Block>, hits: seq<nat>, hashes: seq<nat>)
    requires g.Valid()
  {
    && |now| == |was|
    && forall i :: 0 <= i < |was| ==>
         if was[i] == Held(None) && InSomeTail(g, hits, i) then i < |hashes| && now[i] == Held(Some(hashes[i]))
         else now[i] == was[i]
  }

  /** After the caching, every block of a window before a hit, and its peek block, has a hash. */
  lemma TailsHashed(g: Group, was: seq<Block>, now: seq<Block>, hits: seq<nat>, hashes: seq<nat>, h: nat, i: nat)
    requires g.Valid() && HashedInTails(g, was, now, hits, hashes) && h in hits && TailHeld(g, was, h)
    requires Max(0, h / g.bs - g.WindowBlocks()) <= i < h / g.bs + g.Shift()
    ensures i < |now| && now[i].Held? && now[i].hash.Some?
  {
    var k :| 0 <= k < |hits| && hits[k] == h;
    assert InTail(g, hits[k], i);
  }

  class RequestBlocks {
    const g: Group
    /** extra_retained_tokens, with the hold in it. */
    const extra: nat
    var blocks: seq<Block>
    /** The length of the initial prefix hit, 0 for none; more tokens may come from a connector. */
    ghost const hit: nat
    /** The highest computed count a free has used so far; the hit's own padding is the first. */
    ghost var freedAt: nat

    ghost predicate Valid()
      reads this
    {
      && g.Valid()
      && (forall i, j :: 0 <= i < j < |blocks| && blocks[j].Null? ==> blocks[i].Null?)
      && (forall i :: 0 <= i < |blocks| && blocks[i].Null? ==>
           i < TailStart(g, hit) || i < SkippedBlocks(g, extra, freedAt))
    }

    /** add_local_computed_blocks: of the blocks the lookup found for a hit (null below the hit's
        own tail) those that the free rule skips at the computed count, which is the hit and what
        a connector adds, are dropped and padded with nulls. */
    constructor (g: Group, extra: nat, hit: nat, external: nat, found: seq<Block>)
      requires g.Valid()
      requires forall i, j :: 0 <= i < j < |found| && found[j].Null? ==> found[i].Null?
      requires forall i :: 0 <= i < |found| && found[i].Null? ==> i < TailStart(g, hit)
      ensures Valid() && this.g == g && this.extra == extra && this.hit == hit && freedAt == hit + external
      ensures |blocks| == Max(SkippedBlocks(g, extra, hit + external), |found|)
      ensures forall i :: 0 <= i < |blocks| ==>
                blocks[i] == if i < SkippedBlocks(g, extra, hit + external) then Null else found[i]
    {
      this.g, this.extra, this.hit, this.freedAt := g, extra, hit, hit + external;
      var skipped := SkippedBlocks(g, extra, hit + external);
      this.blocks := seq(skipped, i => Null) + if skipped <= |found| then found[skipped..] else [];
    }

    /** New blocks for the next tokens; they have no hash. */
    method Allocate(n: nat)
      requires Valid()
      modifies this`blocks
      ensures Valid()
      ensures |blocks| == |old(blocks)| + n && blocks[..|old(blocks)|] == old(blocks)
      ensures forall i :: |old(blocks)| <= i < |blocks| ==> blocks[i] == Held(None)
    {
      blocks := blocks + seq(n, i => Held(None));
    }

    /** _remove_blocks_in_range from block 0: the held blocks below `last` go back to the pool,
        from the top down, each once; the walk stops at the first null block, below which there
        are only null blocks. */
    method NullBelow(last: nat) returns (freed: seq<nat>)
      requires last <= |blocks| && forall i, j :: 0 <= i < j < |blocks| && blocks[j].Null? ==> blocks[i].Null?
      modifies this`blocks
      ensures blocks == NullOut(old(blocks), last)
      ensures |freed| <= last && forall k :: 0 <= k < |freed| ==> freed[k] == last - 1 - k
      ensures forall i :: 0 <= i < last ==> (old(blocks)[i].Held? <==> i >= last - |freed|)
    {
      freed := [];
      ghost var was := blocks;
      var i := last;
      while i > 0
        invariant 0 <= i <= last <= |blocks| == |was| && |freed| == last - i
        invariant forall k :: 0 <= k < |was| ==> blocks[k] == if i <= k < last then Null else was[k]
        invariant forall k :: i <= k < last ==> was[k].Held?
        invariant forall k :: 0 <= k < |freed| ==> freed[k] == last - 1 - k
      {
        if blocks[i - 1].Null? {
          break;
        }
        i := i - 1;
        freed := freed + [i];
        blocks := blocks[i := Null];
      }
    }

    /** remove_skipped_blocks: everything below the window, less the retained tokens, is freed. */
    method RemoveSkipped(processed: nat) returns (freed: seq<nat>)
      requires Valid()
      modifies this
      ensures Valid() && freedAt == Max(old(freedAt), processed)
      ensures blocks == NullOut(old(blocks), SkippedBlocks(g, extra, processed))
      ensures forall k :: 0 <= k < |freed| ==> freed[k] == Min(SkippedBlocks(g, extra, processed), |blocks|) - 1 - k
      ensures forall i :: 0 <= i < |blocks| && i < SkippedBlocks(g, extra, processed) ==>
                (old(blocks)[i].Held? <==> i >= Min(SkippedBlocks(g, extra, processed), |blocks|) - |freed|)
    {
      ghost var before := freedAt;
      freedAt := Max(freedAt, processed);
      SkippedMonotone(g, extra, before, freedAt);
      SkippedMonotone(g, extra, processed, freedAt);
      freed := [];
      if processed - g.window + 1 - extra > 0 {
        freed := NullBelow(Min(SkippedBlocks(g, extra, processed), |blocks|));
      }
      assert blocks == NullOut(old(blocks), SkippedBlocks(g, extra, processed));
    }

    /** The scan for freed blocks in one tail. */
    method HasNull(start: nat, end: nat) returns (found: bool)
      requires end <= |blocks|
      ensures found <==> exists i :: start <= i < end && blocks[i].Null?
    {
      found := false;
      for i := start to Max(start, end)
        invariant !found ==> forall k :: start <= k < i ==> blocks[k].Held?
        invariant found ==> exists k :: start <= k < end && blocks[k].Null?
      {
        if blocks[i].Null? {
          found := true;
        }
      }
    }

    /** One tail in the mask over lo..: true for its blocks that have no hash yet. */
    method MarkTail(mask: array<bool>, lo: nat, start: nat, end: nat)
      requires lo <= start && end <= lo + mask.Length <= |blocks|
      modifies mask
      ensures forall m :: 0 <= m < mask.Length ==>
                mask[m] == if start <= lo + m < end then blocks[lo + m] == Held(None) else old(mask[m])
    {
      for i := start to Max(start, end)
        invariant forall m :: 0 <= m < mask.Length ==>
                    mask[m] == if start <= lo + m < i then blocks[lo + m] == Held(None) else old(mask[m])
      {
        mask[i - lo] := blocks[i] == Held(None);
      }
    }

    /** The mask over lo..hi: true for the blocks of the tails that have no hash yet. */
    method TailMask(hits: seq<nat>, lo: nat, hi: nat) returns (mask: array<bool>)
      requires Valid() && lo <= hi <= |blocks|
      requires AllFit(g, hits, lo, hi)
      ensures fresh(mask) && mask.Length == hi - lo
      ensures forall m :: 0 <= m < hi - lo ==>
                (mask[m] <==> InSomeTail(g, hits, lo + m) && blocks[lo + m] == Held(None))
    {
      mask := new bool[hi - lo](_ => false);
      for k := 0 to |hits|
        invariant forall m :: 0 <= m < hi - lo ==>
                    (mask[m] <==> InSomeTail(g, hits[..k], lo + m) && blocks[lo + m] == Held(None))
      {
        MarkTail(mask, lo, TailStart(g, hits[k]), TailEnd(g, hits[k]));
        forall i | lo <= i < hi
          ensures InSomeTail(g, hits[..k + 1], i) <==> InSomeTail(g, hits[..k], i) || InTail(g, hits[k], i)
        {
          OneMoreTail(g, hits, k, i);
        }
      }
      assert hits[..|hits|] == hits;
    }

    /** cache_full_blocks with a mask: the masked blocks get their hash. */
    method CacheFullBlocks(lo: nat, hi: nat, mask: array<bool>, hashes: seq<nat>)
      requires lo <= hi <= |blocks| && mask.Length == hi - lo && hi <= |hashes|
      modifies this`blocks
      ensures |blocks| == |old(blocks)|
      ensures forall i :: 0 <= i < |blocks| ==>
                blocks[i] == if lo <= i < hi && mask[i - lo] && old(blocks)[i].Held?
                  then Held(Some(hashes[i])) else old(blocks)[i]
    {
      ghost var was := blocks;
      for i := lo to hi
        invariant |blocks| == |was|
        invariant forall k :: 0 <= k < |was| ==>
                    blocks[k] == if lo <= k < i && mask[k - lo] && was[k].Held? then Held(Some(hashes[k])) else was[k]
      {
        if blocks[i].Null? || !mask[i - lo] {
          continue;
        }
        blocks := blocks[i := Held(Some(hashes[i]))];
      }
    }

    /** The loop over the boundaries: the hits with a whole tail, and the span of their tails. */
    method SelectTails(bounds: seq<nat>, limit: nat) returns (hits: seq<nat>, lo: nat, hi: nat)
      requires Valid() && limit <= |blocks|
      requires forall k :: 0 <= k < |bounds| ==> Fits(g, bounds[k], limit)
      ensures hits == Usable(g, blocks, bounds)
      ensures hits != [] ==> lo <= hi <= limit
      ensures AllFit(g, hits, lo, hi)
    {
      hits := [];
      lo, hi := |blocks|, 0;
      for k := 0 to |bounds|
        invariant hits == Usable(g, blocks, bounds[..k])
        invariant hi <= limit && (hits != [] ==> lo <= hi)
        invariant AllFit(g, hits, lo, hi)
      {
        var h := bounds[k];
        assert Fits(g, h, limit);
        UsableOneMore(g, blocks, bounds, k);
        FitOneMore(g, hits, lo, hi, h, limit);
        var start, end := TailStart(g, h), TailEnd(g, h);
        var freedTail := HasNull(start, end);
        if !freedTail {
          hits := hits + [h];
          lo, hi := Min(lo, start), Max(hi, end);
        }
      }
      assert bounds[..|bounds|] == bounds;
    }

    /** The masked caching of the selected tails. */
    method HashTails(hits: seq<nat>, lo: nat, hi: nat, hashes: seq<nat>)
      requires Valid() && lo <= hi <= |blocks| && hi <= |hashes|
      requires AllFit(g, hits, lo, hi)
      modifies this`blocks
      ensures Valid() && HashedInTails(g, old(blocks), blocks, hits, hashes)
    {
      var mask := TailMask(hits, lo, hi);
      CacheFullBlocks(lo, hi, mask, hashes);
      forall i | 0 <= i < |blocks| && lo <= i < hi
        ensures mask[i - lo] <==> InSomeTail(g, hits, i) && old(blocks)[i] == Held(None)
      {
        assert lo + (i - lo) == i;
      }
    }

    /** The final checkpoints' tails, once the computed count is cut to the blocks there are. */
    method CacheUpTo(computed: nat, tokens: nat, keep: nat, hashes: seq<nat>) returns (hits: seq<nat>)
      requires Valid() && g.Align() > 0 && computed <= tokens
      requires computed <= |blocks| * g.bs && computed / g.bs <= |blocks| && computed / g.bs <= |hashes|
      modifies this`blocks
      ensures Valid()
      ensures hits == Usable(g, old(blocks), Boundaries(g, computed, tokens, keep))
      ensures HashedInTails(g, old(blocks), blocks, hits, hashes)
      ensures forall h :: h in hits ==> InRange(g, computed, |old(blocks)|, h)
    {
      var bounds := Boundaries(g, computed, tokens, keep);
      TailsInRange(g, computed, tokens, keep, |blocks|);
      forall k | 0 <= k < |bounds| ensures InRange(g, computed, |blocks|, bounds[k]) {
        assert bounds[k] in bounds;
      }
      var lo, hi;
      hits, lo, hi := SelectTails(bounds, computed / g.bs);
      if hits != [] {
        HashTails(hits, lo, hi, hashes);
      }
    }

    /** _dsv41_swa_final_cache. `hashes` are the request's block hashes; a hash is there for every
        block the computed tokens fill. */
    method FinalCache(numComputed: nat, tokens: nat, keep: nat, hashes: seq<nat>) returns (hits: seq<nat>)
      requires Valid() && g.Align() > 0 && Min(numComputed, |blocks| * g.bs) / g.bs <= |hashes|
      requires Min(numComputed, |blocks| * g.bs) <= tokens
      modifies this`blocks
      ensures Valid()
      ensures hits == Usable(g, old(blocks), Boundaries(g, Min(numComputed, |old(blocks)| * g.bs), tokens, keep))
      ensures HashedInTails(g, old(blocks), blocks, hits, hashes)
      ensures forall h :: h in hits ==> InRange(g, Min(numComputed, |old(blocks)| * g.bs), |old(blocks)|, h)
    {
      var computed := Min(numComputed, |blocks| * g.bs);
      ComputedBlocks(computed, |blocks|, g.bs);
      hits := CacheUpTo(computed, tokens, keep, hashes);
    }
  }

  lemma ComputedBlocks(computed: nat, total: nat, bs: nat)
    requires bs > 0 && computed <= total * bs
    ensures computed / bs <= total
  {
    assert Times(total * bs, total, bs);
    DivAtMost(computed, total * bs, total, bs);
  }

  /** When a request is freed after `computed` processed tokens, with the hold in its retained
      tokens and all earlier frees at no higher counts, the whole tail of every final checkpoint
      at or above its initial prefix hit is still allocated. */
  lemma FinalTailsHeld(r: RequestBlocks, alignment: nat, extra: nat, computed: nat, tokens: nat, keep: nat, h: nat)
    requires r.Valid() && 0 < r.g.Align() <= alignment
    requires r.extra == extra + HoldTokens(r.g.window, r.g.bs, alignment, 1, keep)
    requires r.freedAt <= computed <= tokens && computed <= |r.blocks| * r.g.bs
    requires h in Boundaries(r.g, computed, tokens, keep) && r.hit <= h
    ensures TailHeld(r.g, r.blocks, h)
  {
    HoldCovers(r.g, alignment, extra, computed, tokens, keep, h);
    SkippedMonotone(r.g, r.extra, r.freedAt, computed);
    BoundaryLag(r.g, computed, tokens, keep, h);
    DivAtMost(r.hit, h, h / r.g.bs, r.g.bs);
    TailsInRange(r.g, computed, tokens, keep, |r.blocks|);
  }
}

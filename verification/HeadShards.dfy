/** Which rank owns which hash heads and rows: shard_range in overlay/engram_layout.py, and
    the same arithmetic and the id columns in overlay/engram_file_backend.py. */
module HeadShards {
  import opened Arithmetic

  /** sum(sizes[:k]), with Python's clamping of the slice. */
  function RowsBefore(sizes: seq<nat>, k: nat): nat {
    if k == 0 then 0 else RowsBefore(sizes, k - 1) + if k <= |sizes| then sizes[k - 1] else 0
  }

  datatype Shard = Shard(lo: nat, hi: nat, headStart: nat, localHeads: int)

  function ShardRange(sizes: seq<nat>, rank: nat, tp: nat, dp: nat, dpRank: nat): Shard
    requires tp > 0 && dp > 0
  {
    MulMonotone(1, tp, dp);
    var part := CeilDiv(|sizes|, tp * dp);
    var headStart := (rank * dp + dpRank) * part;
    var headEnd := Min(headStart + part, |sizes|);
    Shard(RowsBefore(sizes, headStart), RowsBefore(sizes, headEnd), headStart, headEnd - headStart)
  }

  /** The same shard by its global number, which is what the statements below are about. */
  function ShardAt(sizes: seq<nat>, g: nat, shards: nat): Shard
    requires shards > 0
  {
    var part := CeilDiv(|sizes|, shards);
    var headEnd := Min(g * part + part, |sizes|);
    Shard(RowsBefore(sizes, g * part), RowsBefore(sizes, headEnd), g * part, headEnd - g * part)
  }

  /** The ranks of a TP x DP grid number the shards 0 .. tp * dp - 1 ... */
  lemma RankIsShard(sizes: seq<nat>, rank: nat, tp: nat, dp: nat, dpRank: nat)
    requires rank < tp && dpRank < dp && tp * dp > 0
    ensures rank * dp + dpRank < tp * dp
    ensures ShardRange(sizes, rank, tp, dp, dpRank) == ShardAt(sizes, rank * dp + dpRank, tp * dp)
  {
    MulMonotone(rank + 1, tp, dp);
  }

  /** ... each number standing for one rank only. */
  lemma ShardIsRank(tp: nat, dp: nat, g: nat)
    requires dp > 0 && g < tp * dp
    ensures g / dp < tp && g % dp < dp && g / dp * dp + g % dp == g
  {
    MulMonotone(tp, g / dp, dp);
  }

  /** The backend's own vocab_start_idx and vocab_end_idx; it does not clamp head_end. */
  function BackendRange(sizes: seq<nat>, g: nat, shards: nat): (nat, nat)
    requires shards > 0
  {
    var part := CeilDiv(|sizes|, shards);
    (RowsBefore(sizes, g * part), RowsBefore(sizes, g * part + part))
  }

  lemma {:induction false} RowsBeforeClamped(sizes: seq<nat>, k: nat)
    requires k >= |sizes|
    ensures RowsBefore(sizes, k) == RowsBefore(sizes, |sizes|)
  {
    if k > |sizes| {
      RowsBeforeClamped(sizes, k - 1);
    }
  }

  lemma {:induction false} RowsBeforeMonotone(sizes: seq<nat>, j: nat, k: nat)
    requires j <= k
    ensures RowsBefore(sizes, j) <= RowsBefore(sizes, k)
  {
    if j < k {
      RowsBeforeMonotone(sizes, j, k - 1);
    }
  }

  /** shard_range and the backend agree, so a packed shard's range matches its store's. */
  lemma BackendAgrees(sizes: seq<nat>, g: nat, shards: nat)
    requires shards > 0
    ensures BackendRange(sizes, g, shards) == (ShardAt(sizes, g, shards).lo, ShardAt(sizes, g, shards).hi)
  {
    var end := g * CeilDiv(|sizes|, shards) + CeilDiv(|sizes|, shards);
    if end >= |sizes| {
      RowsBeforeClamped(sizes, end);
    }
  }

  lemma PartCovers(heads: nat, shards: nat)
    requires shards > 0
    ensures heads <= shards * CeilDiv(heads, shards)
  {
    var n := heads + shards - 1;
    assert n == n / shards * shards + n % shards;
  }

  lemma NextShardFollows(sizes: seq<nat>, g: nat, shards: nat)
    requires shards > 0
    ensures ShardAt(sizes, g, shards).hi == ShardAt(sizes, g + 1, shards).lo
  {
    var part := CeilDiv(|sizes|, shards);
    assert (g + 1) * part == g * part + part;
    BackendAgrees(sizes, g, shards);
  }

  lemma {:induction false} LowerShards(sizes: seq<nat>, g: nat, h: nat, shards: nat)
    requires shards > 0 && g <= h
    ensures ShardAt(sizes, g, shards).lo <= ShardAt(sizes, h, shards).lo
  {
    MulMonotone(g, h, CeilDiv(|sizes|, shards));
    RowsBeforeMonotone(sizes, g * CeilDiv(|sizes|, shards), h * CeilDiv(|sizes|, shards));
  }

  lemma {:induction false} FindShard(sizes: seq<nat>, row: nat, n: nat, shards: nat) returns (g: nat)
    requires shards > 0 && row < ShardAt(sizes, n, shards).lo
    ensures g < n && ShardAt(sizes, g, shards).lo <= row < ShardAt(sizes, g, shards).hi
  {
    if row < ShardAt(sizes, n - 1, shards).lo {
      g := FindShard(sizes, row, n - 1, shards);
    } else {
      g := n - 1;
      NextShardFollows(sizes, g, shards);
    }
  }

  /** The shards' row ranges are contiguous and disjoint and cover the table: every row is
      owned by exactly one rank. */
  lemma EveryRowOwnedOnce(sizes: seq<nat>, shards: nat, row: nat) returns (g: nat)
    requires shards > 0 && row < RowsBefore(sizes, |sizes|)
    ensures g < shards && ShardAt(sizes, g, shards).lo <= row < ShardAt(sizes, g, shards).hi
    ensures forall h: nat :: ShardAt(sizes, h, shards).lo <= row < ShardAt(sizes, h, shards).hi ==> h == g
    ensures ShardAt(sizes, 0, shards).lo == 0 && ShardAt(sizes, shards - 1, shards).hi == RowsBefore(sizes, |sizes|)
  {
    var part := CeilDiv(|sizes|, shards);
    PartCovers(|sizes|, shards);
    RowsBeforeClamped(sizes, shards * part);
    NextShardFollows(sizes, shards - 1, shards);
    g := FindShard(sizes, row, shards, shards);
    forall h: nat | ShardAt(sizes, h, shards).lo <= row < ShardAt(sizes, h, shards).hi ensures h == g {
      NextShardFollows(sizes, h, shards);
      NextShardFollows(sizes, g, shards);
      if h < g {
        LowerShards(sizes, h + 1, g, shards);
      } else if g < h {
        LowerShards(sizes, g + 1, h, shards);
      }
    }
  }

  /** A rank owns every row of each of its heads, so no live id of a column it looks up is
      answered with zeros. */
  lemma OwnHeadsOwned(sizes: seq<nat>, g: nat, shards: nat, head: nat, row: nat)
    requires shards > 0
    requires var s := ShardAt(sizes, g, shards); s.headStart <= head < s.headStart + s.localHeads
    requires RowsBefore(sizes, head) <= row < RowsBefore(sizes, head + 1)
    ensures ShardAt(sizes, g, shards).lo <= row < ShardAt(sizes, g, shards).hi
  {
    var part := CeilDiv(|sizes|, shards);
    RowsBeforeMonotone(sizes, g * part, head);
    RowsBeforeMonotone(sizes, head + 1, Min(g * part + part, |sizes|));
  }

  lemma SamePart(part: nat, head: nat, g: nat, h: nat)
    requires g * part <= head < g * part + part && h * part <= head < h * part + part
    ensures g == h
  {
    MulMonotone(g + 1, h, part);
    MulMonotone(h + 1, g, part);
    assert (g + 1) * part == g * part + part && (h + 1) * part == h * part + part;
  }

  /** Every head belongs to exactly one rank, and has as many rows as its size says. */
  lemma HeadOwnedOnce(sizes: seq<nat>, shards: nat, head: nat) returns (g: nat)
    requires shards > 0 && head < |sizes|
    ensures g < shards
    ensures var s := ShardAt(sizes, g, shards); s.headStart <= head < s.headStart + s.localHeads
    ensures forall h: nat :: var s := ShardAt(sizes, h, shards);
                             s.headStart <= head < s.headStart + s.localHeads ==> h == g
    ensures RowsBefore(sizes, 0) == 0 && RowsBefore(sizes, head + 1) == RowsBefore(sizes, head) + sizes[head]
  {
    var part := CeilDiv(|sizes|, shards);
    PartCovers(|sizes|, shards);
    assert part == 0 ==> shards * part == 0;
    g := head / part;
    assert head == g * part + head % part;
    MulMonotone(shards, g, part);
    forall h: nat | var s := ShardAt(sizes, h, shards); s.headStart <= head < s.headStart + s.localHeads
      ensures h == g
    {
      SamePart(part, head, g, h);
    }
  }

  /** The backend's guard is exact: it raises just when some rank would have no head. */
  lemma GuardIffEveryRankHasHead(sizes: seq<nat>, shards: nat)
    requires shards > 0
    ensures (shards - 1) * CeilDiv(|sizes|, shards) < |sizes|
            <==> forall g :: 0 <= g < shards ==> ShardAt(sizes, g, shards).localHeads >= 1
  {
    var part := CeilDiv(|sizes|, shards);
    PartCovers(|sizes|, shards);
    if (shards - 1) * part < |sizes| {
      forall g | 0 <= g < shards ensures ShardAt(sizes, g, shards).localHeads >= 1 {
        MulMonotone(g, shards - 1, part);
        assert part == 0 ==> shards * part == 0;
      }
    } else {
      assert ShardAt(sizes, shards - 1, shards).localHeads < 1;
    }
  }

  /** Without the guard shard_range reports a negative number of heads for some rank exactly when
      the shards before the last would need more heads than there are. */
  lemma NegativeHeadsIff(sizes: seq<nat>, shards: nat)
    requires shards > 0
    ensures (exists g :: 0 <= g < shards && ShardAt(sizes, g, shards).localHeads < 0)
            <==> (shards - 1) * CeilDiv(|sizes|, shards) > |sizes|
  {
    var part := CeilDiv(|sizes|, shards);
    forall g | 0 <= g < shards && ShardAt(sizes, g, shards).localHeads < 0 ensures (shards - 1) * part > |sizes| {
      MulMonotone(g, shards - 1, part);
    }
    assert (shards - 1) * part > |sizes| ==> ShardAt(sizes, shards - 1, shards).localHeads < 0;
  }

  /** Such a layout: five heads on four ranks. */
  lemma NegativeLocalHeads()
    ensures ShardRange([7, 7, 7, 7, 7], 3, 4, 1, 0).localHeads == -1
  {
  }

  // ---------------------------------------------------------------------------
  // The id columns of lookup().

  /** A rank's columns: its heads' ids, padded with -1 to part columns. */
  function LocalColumns(ids: seq<int>, g: nat, part: nat): (cols: seq<int>)
    ensures |cols| == part
    ensures forall k :: 0 <= k < part ==> cols[k] == if g * part + k < |ids| then ids[g * part + k] else -1
  {
    var start, end := g * part, Min(g * part + part, |ids|);
    var own := if start < end then ids[start..end] else [];
    own + seq(part - |own|, _ => -1)
  }

  /** They are the ids of the heads that shard_range gives the rank. */
  lemma ColumnsAreOwn(sizes: seq<nat>, ids: seq<int>, g: nat, shards: nat, k: nat)
    requires shards > 0 && |ids| == |sizes| && k < CeilDiv(|sizes|, shards)
    ensures var s := ShardAt(sizes, g, shards);
            LocalColumns(ids, g, CeilDiv(|sizes|, shards))[k] == if k < s.localHeads then ids[s.headStart + k] else -1
  {
  }

  function AllColumns(ids: seq<int>, n: nat, part: nat): seq<int> {
    if n == 0 then [] else AllColumns(ids, n - 1, part) + LocalColumns(ids, n - 1, part)
  }

  lemma {:induction false} ColumnsSoFar(ids: seq<int>, n: nat, part: nat)
    ensures |AllColumns(ids, n, part)| == n * part
    ensures forall c :: 0 <= c < n * part ==> AllColumns(ids, n, part)[c] == if c < |ids| then ids[c] else -1
  {
    if n > 0 {
      ColumnsSoFar(ids, n - 1, part);
      var base := (n - 1) * part;
      assert n * part == base + part;
      var before, cols := AllColumns(ids, n - 1, part), LocalColumns(ids, n - 1, part);
      forall c | 0 <= c < base + part ensures (before + cols)[c] == if c < |ids| then ids[c] else -1 {
        assert c >= base ==> (before + cols)[c] == cols[c - base];
      }
    }
  }

  /** Side by side, the ranks' padded columns are the original id columns followed only by
      padding. */
  lemma ColumnsReassemble(ids: seq<int>, shards: nat)
    requires shards > 0
    ensures var all := AllColumns(ids, shards, CeilDiv(|ids|, shards));
            |all| >= |ids| && all[..|ids|] == ids && forall c :: |ids| <= c < |all| ==> all[c] == -1
  {
    PartCovers(|ids|, shards);
    ColumnsSoFar(ids, shards, CeilDiv(|ids|, shards));
  }
}

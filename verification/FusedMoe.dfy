/** The tiers of the fused MoE (overlay/exl3.py:998-1074, 1571-1817): every branch makes the same
    adds as the plain loop over experts. */
module FusedMoe {
  import opened Wrappers
  import opened Arithmetic
  import opened Routing
  import opened GroupedTables

  function Locals(n: nat): (s: set<nat>)
    ensures forall e: nat :: e in s <==> e < n
  {
    if n == 0 then {} else Locals(n - 1) + {n - 1}
  }

  // ---------------------------------------------------------------------------
  // The fused kernel.

  /** exl3_moe on the first e buckets, as the number of times it makes the add x: a bucket of at
      most `cap` rows is run, a larger one is skipped. The last entry of ec is the sentinel
      bucket, which the kernel never runs. */
  function Launched(rows: seq<Row>, ec: seq<nat>, cap: nat, e: nat, x: Add): nat
    requires e < |ec| && Prefix(ec, e) <= |rows|
  {
    if e == 0 then 0 else
      Launched(rows, ec, cap, e - 1, x)
      + if ec[e - 1] <= cap && x.expert == e - 1 then Times(rows, Prefix(ec, e - 1), Prefix(ec, e), x) else 0
  }

  lemma {:induction false} LaunchedAt(rows: seq<Row>, ec: seq<nat>, cap: nat, e: nat, x: Add)
    requires e < |ec| && Prefix(ec, e) <= |rows|
    ensures x.expert < e ==> Prefix(ec, x.expert + 1) <= |rows|
    ensures Launched(rows, ec, cap, e, x) ==
            if x.expert < e && ec[x.expert] <= cap
              then Times(rows, Prefix(ec, x.expert), Prefix(ec, x.expert + 1), x) else 0
  {
    if e > 0 {
      LaunchedAt(rows, ec, cap, e - 1, x);
    }
  }

  /** One launch, on a tally. */
  function Launch(rows: seq<Row>, ec: seq<nat>, cap: nat, before: Tally): Tally
    requires ec != [] && Prefix(ec, |ec| - 1) <= |rows|
  {
    (x: Add) => before(x) + Launched(rows, ec, cap, |ec| - 1, x)
  }

  function Thin(ec: seq<nat>, cap: nat, n: nat): set<nat>
    requires n <= |ec|
  {
    set e: nat | e < n && ec[e] <= cap
  }

  /** One launch makes the adds of the experts within the cap, and no others. */
  lemma LaunchThin(rows: seq<Row>, ec: seq<nat>, adds: seq<Add>, cap: nat, n: nat, before: Tally)
    requires Cuts(rows, ec, adds) && |ec| == n + 1
    ensures Prefix(ec, n) <= |rows|
    ensures Added(before, Launch(rows, ec, cap, before), adds, Thin(ec, cap, n))
  {
    PrefixMonotone(ec, n, |ec|);
    forall x: Add
      ensures Launched(rows, ec, cap, n, x) == if x.expert in Thin(ec, cap, n) then multiset(adds)[x] else 0
    {
      LaunchedAt(rows, ec, cap, n, x);
      assert x.expert < n ==> SliceIs(rows, ec, adds, x.expert);
    }
  }

  lemma {:induction false} CountedIsThere(a: seq<Add>, e: nat) returns (x: Add)
    requires Count(a, e) > 0
    ensures x in multiset(a) && x.expert == e
  {
    var last := |a| - 1;
    if a[last].expert == e {
      x := a[last];
    } else {
      x := CountedIsThere(a[..last], e);
      assert a == a[..last] + [a[last]];
    }
  }

  function Nothing(): Tally {
    (x: Add) => 0
  }

  lemma FatRouteMissing(out: Tally, adds: seq<Add>, cap: nat, ec: seq<nat>, n: nat, e: nat)
    requires |ec| == n + 1 && Added(Nothing(), out, adds, Thin(ec, cap, n))
    requires e < n && Count(adds, e) == ec[e] > cap
    ensures !Exactly(out, adds, Locals(n))
  {
    var x := CountedIsThere(adds, e);
    assert x.expert in Locals(n) && x.expert !in Thin(ec, cap, n);
    assert out(x) == 0 && multiset(adds)[x] > 0;
  }

  lemma NoFatRoutes(out: Tally, adds: seq<Add>, cap: nat, ec: seq<nat>, n: nat)
    requires |ec| == n + 1 && Added(Nothing(), out, adds, Thin(ec, cap, n))
    requires forall e :: 0 <= e < n ==> ec[e] <= cap
    ensures Exactly(out, adds, Locals(n))
  {
    assert Thin(ec, cap, n) == Locals(n);
  }

  /** No local expert has more routes than the temps have rows. */
  ghost predicate CountsFit(adds: seq<Add>, n: nat, cap: nat) {
    forall e :: 0 <= e < n ==> Count(adds, e) <= cap
  }

  /** A single launch makes all the adds exactly when no local expert has more routes than the
      temps have rows. */
  lemma SingleLaunchIff(sorted: seq<Add>, adds: seq<Add>, cap: nat, n: nat)
    requires SortOf(sorted, adds)
    ensures Prefix(Counts(adds, n + 1), n) <= |sorted|
    ensures Exactly(Launch(Rows(sorted), Counts(adds, n + 1), cap, Nothing()), adds, Locals(n))
            <==> CountsFit(adds, n, cap)
  {
    var ec := Counts(adds, n + 1);
    CountsCut(sorted, adds, n + 1);
    LaunchThin(Rows(sorted), ec, adds, cap, n, Nothing());
    if CountsFit(adds, n, cap) {
      NoFatRoutes(Launch(Rows(sorted), ec, cap, Nothing()), adds, cap, ec, n);
    } else {
      var e :| 0 <= e < n && Count(adds, e) > cap;
      FatRouteMissing(Launch(Rows(sorted), ec, cap, Nothing()), adds, cap, ec, n, e);
    }
  }

  /** Without distinct experts in a token, `tokens <= cap` does not suffice: one token that names
      expert 0 twice has one row too many for a temp of one row. */
  lemma RepeatedExpertLost(sorted: seq<Add>)
    requires SortOf(sorted, Adds(Flatten([[0, 0]], [[1.0, 2.0]]), 1, None))
    ensures Rectangular([[0, 0]], [[1.0, 2.0]])
    ensures var adds := Adds(Flatten([[0, 0]], [[1.0, 2.0]]), 1, None);
            && Prefix(Counts(adds, 2), 1) <= |sorted|
            && !Exactly(Launch(Rows(sorted), Counts(adds, 2), 1, Nothing()), adds, Locals(1))
  {
    var adds := Adds(Flatten([[0, 0]], [[1.0, 2.0]]), 1, None);
    assert Flatten([[0, 0]][..0], [[1.0, 2.0]][..0]) == [];
    assert |adds| == 2 && adds[0].expert == 0 && adds[1].expert == 0;
    assert Count(adds[..1][..0], 0) == 0;
    assert Count(adds[..1], 0) == 1;
    assert Count(adds, 0) == 2;
    SingleLaunchIff(sorted, adds, 1, 1);
    assert exists e :: 0 <= e < 1 && Count(adds, e) > 1;
  }

  // ---------------------------------------------------------------------------
  // Oversized experts from slices of the sort (the sorted and the batched tier).

  /** apply_exl3_sorted_fat; apply_exl3_batched_fat walks the same slices. */
  method SortedFat(rows: seq<Row>, c: seq<nat>, cap: nat, before: Tally, ghost adds: seq<Add>)
    returns (out: Tally)
    requires Cuts(rows, c, adds)
    ensures Added(before, out, adds, FatBelow(c, cap, |c|))
  {
    out := before;
    var offset := 0;
    for e := 0 to |c|
      invariant offset == Prefix(c, e)
      invariant Added(before, out, adds, FatBelow(c, cap, e))
    {
      assert SliceIs(rows, c, adds, e);
      var start := offset;
      offset := offset + c[e];
      if c[e] > cap {
        out := Sum(out, RunOn(rows, start, offset, e));
      }
    }
  }

  /** Expert e run over rows lo..hi. */
  function RunOn(rows: seq<Row>, lo: nat, hi: nat, e: nat): Tally
    requires lo <= hi <= |rows|
  {
    (x: Add) => if x.expert == e then Times(rows, lo, hi, x) else 0
  }

  // ---------------------------------------------------------------------------
  // Row tiles.

  /** How often running expert x.expert on its first `limit` rows makes the add x. */
  function Head(rows: seq<Row>, c: seq<nat>, limit: nat, x: Add): nat
    requires x.expert < |c| && Prefix(c, x.expert) + c[x.expert] <= |rows|
  {
    Times(rows, Prefix(c, x.expert), Prefix(c, x.expert) + Min(c[x.expert], limit), x)
  }

  ghost predicate HeadAt(before: Tally, out: Tally, rows: seq<Row>, c: seq<nat>, limit: nat, x: Add) {
    if x.expert < |c| then
      Prefix(c, x.expert) + c[x.expert] <= |rows| && out(x) == before(x) + Head(rows, c, limit, x)
    else out(x) == before(x)
  }

  /** Every expert has been run on its first `limit` rows. */
  ghost predicate HeadsAdded(before: Tally, out: Tally, rows: seq<Row>, c: seq<nat>, limit: nat) {
    forall x: Add :: HeadAt(before, out, rows, c, limit, x)
  }

  /** tile_counts: each expert's rows from row0 on, at most a tile of them. */
  function Clipped(c: seq<nat>, row0: nat, tile: nat): (t: seq<nat>)
    ensures |t| == |c|
    ensures forall e :: 0 <= e < |c| ==> t[e] == Clamp(c[e] - row0, 0, tile)
  {
    seq(|c|, e requires 0 <= e < |c| => Clamp(c[e] - row0, 0, tile))
  }

  ghost predicate IsTile(c: seq<nat>, t: seq<nat>, row0: nat) {
    |t| == |c| && forall e :: 0 <= e < |c| ==> t[e] > 0 ==> row0 + t[e] <= c[e]
  }

  /** Where slot idx of the tile buffer is taken from (expert_id, local_row and src). */
  function TileSource(c: seq<nat>, t: seq<nat>, row0: nat, idx: nat): nat
    requires |t| == |c| && idx < Prefix(t, |t|)
  {
    var e := Bucket(t, idx, 0);
    Prefix(c, e) + row0 + (idx - Prefix(t, e))
  }

  lemma TileSourceIs(c: seq<nat>, t: seq<nat>, row0: nat, e: nat, k: nat)
    requires |t| == |c| && e < |c| && k < t[e]
    ensures Prefix(t, e) + k < Prefix(t, |t|)
    ensures TileSource(c, t, row0, Prefix(t, e) + k) == Prefix(c, e) + row0 + k
  {
    BucketAt(t, e, k);
  }

  lemma TileSourceInBounds(c: seq<nat>, t: seq<nat>, row0: nat, idx: nat)
    requires IsTile(c, t, row0) && idx < Prefix(t, |t|)
    ensures TileSource(c, t, row0, idx) < Prefix(c, |c|)
  {
    var e := Bucket(t, idx, 0);
    assert e < |c| && t[e] > 0;
    PrefixMonotone(c, e + 1, |c|);
  }

  function TileRowAt(rows: seq<Row>, c: seq<nat>, t: seq<nat>, row0: nat, idx: nat): Row
    requires IsTile(c, t, row0) && Prefix(c, |c|) <= |rows| && idx < Prefix(t, |t|)
  {
    TileSourceInBounds(c, t, row0, idx);
    rows[TileSource(c, t, row0, idx)]
  }

  /** The tile's own token and weight buffers. */
  function TileRows(rows: seq<Row>, c: seq<nat>, t: seq<nat>, row0: nat): (tile: seq<Row>)
    requires IsTile(c, t, row0) && Prefix(c, |c|) <= |rows|
    ensures |tile| == Prefix(t, |t|)
  {
    seq(Prefix(t, |t|), idx requires 0 <= idx < Prefix(t, |t|) => TileRowAt(rows, c, t, row0, idx))
  }

  lemma TileRowAtIs(rows: seq<Row>, c: seq<nat>, t: seq<nat>, row0: nat, e: nat, k: nat)
    requires IsTile(c, t, row0) && Prefix(c, |c|) <= |rows| && e < |c| && k < t[e]
    ensures Prefix(t, e) + k < Prefix(t, |t|) && Prefix(c, e) + row0 + k < |rows|
    ensures TileRowAt(rows, c, t, row0, Prefix(t, e) + k) == rows[Prefix(c, e) + row0 + k]
  {
    TileSourceIs(c, t, row0, e, k);
    TileSourceInBounds(c, t, row0, Prefix(t, e) + k);
  }

  lemma TileRowIs(rows: seq<Row>, c: seq<nat>, t: seq<nat>, row0: nat, e: nat, k: nat)
    requires IsTile(c, t, row0) && Prefix(c, |c|) <= |rows| && e < |c| && k < t[e]
    ensures Prefix(t, e) + k < |TileRows(rows, c, t, row0)| && Prefix(c, e) + row0 + k < |rows|
    ensures SameAt(TileRows(rows, c, t, row0), Prefix(t, e), rows, Prefix(c, e) + row0, k)
  {
    TileRowAtIs(rows, c, t, row0, e, k);
  }

  lemma TileFits(c: seq<nat>, t: seq<nat>, row0: nat, total: nat, e: nat)
    requires IsTile(c, t, row0) && Prefix(c, |c|) <= total && e < |c|
    ensures Prefix(t, e) + t[e] <= Prefix(t, |t|)
    ensures t[e] > 0 ==> Prefix(c, e) + row0 + t[e] <= total
  {
    PrefixMonotone(t, e + 1, |t|);
    PrefixMonotone(c, e + 1, |c|);
  }

  /** An expert's part of one tile: its next rows of the sorted buffer. */
  function TilePart(rows: seq<Row>, c: seq<nat>, t: nat, row0: nat, x: Add): nat
    requires x.expert < |c| && (t > 0 ==> Prefix(c, x.expert) + row0 + t <= |rows|)
  {
    if t > 0 then Times(rows, Prefix(c, x.expert) + row0, Prefix(c, x.expert) + row0 + t, x) else 0
  }

  /** It is what the expert's head grows by. */
  lemma HeadGrows(rows: seq<Row>, c: seq<nat>, row0: nat, tile: nat, x: Add)
    requires x.expert < |c| && Prefix(c, x.expert) + c[x.expert] <= |rows|
    ensures Head(rows, c, row0 + tile, x) ==
            Head(rows, c, row0, x) + TilePart(rows, c, Clamp(c[x.expert] - row0, 0, tile), row0, x)
  {
    var p, t := Prefix(c, x.expert), Clamp(c[x.expert] - row0, 0, tile);
    if t > 0 {
      TimesSplit(rows, p, p + row0, p + row0 + t, x);
    }
  }

  lemma TileBucket(rows: seq<Row>, c: seq<nat>, t: seq<nat>, row0: nat, x: Add)
    requires IsTile(c, t, row0) && Prefix(c, |c|) <= |rows| && x.expert < |c|
    ensures t[x.expert] > 0 ==> Prefix(c, x.expert) + row0 + t[x.expert] <= |rows|
    ensures Prefix(t, x.expert) + t[x.expert] <= |TileRows(rows, c, t, row0)|
    ensures Times(TileRows(rows, c, t, row0), Prefix(t, x.expert), Prefix(t, x.expert) + t[x.expert], x)
            == TilePart(rows, c, t[x.expert], row0, x)
  {
    var e := x.expert;
    TileFits(c, t, row0, |rows|, e);
    if t[e] > 0 {
      var tile, p, q := TileRows(rows, c, t, row0), Prefix(t, e), Prefix(c, e) + row0;
      forall k | 0 <= k < t[e] ensures SameAt(tile, p, rows, q, k) {
        TileRowIs(rows, c, t, row0, e, k);
      }
      SameTimes(tile, p, rows, q, t[e], x);
    }
  }

  lemma WithSentinel(t: seq<nat>, e: nat)
    requires e <= |t|
    ensures Prefix(t + [0], e) == Prefix(t, e)
  {
    PrefixAgree(t, t + [0], e);
  }

  /** What one tile's launch makes of the add x, when every bucket of the tile fits the temps: the
      kernel skips none. */
  lemma TileLaunch(rows: seq<Row>, c: seq<nat>, t: seq<nat>, row0: nat, cap: nat, x: Add)
    requires IsTile(c, t, row0) && Prefix(c, |c|) <= |rows| && BucketsFit(t, cap)
    ensures Prefix(t + [0], |c|) <= |TileRows(rows, c, t, row0)|
    ensures x.expert < |c| && t[x.expert] > 0 ==> Prefix(c, x.expert) + row0 + t[x.expert] <= |rows|
    ensures Launched(TileRows(rows, c, t, row0), t + [0], cap, |c|, x) ==
            if x.expert < |c| then TilePart(rows, c, t[x.expert], row0, x) else 0
  {
    WithSentinel(t, |c|);
    LaunchedAt(TileRows(rows, c, t, row0), t + [0], cap, |c|, x);
    if x.expert < |c| {
      WithSentinel(t, x.expert);
      WithSentinel(t, x.expert + 1);
      TileBucket(rows, c, t, row0, x);
    }
  }

  /** No bucket has more rows than the temps. */
  ghost predicate BucketsFit(t: seq<nat>, cap: nat) {
    forall e :: 0 <= e < |t| ==> t[e] <= cap
  }

  lemma StepAt(before: Tally, soFar: Tally, out: Tally, rows: seq<Row>, c: seq<nat>, row0: nat, tile: nat, x: Add)
    requires HeadAt(before, soFar, rows, c, row0, x)
    requires out(x) == soFar(x)
                       + if x.expert < |c| then TilePart(rows, c, Clamp(c[x.expert] - row0, 0, tile), row0, x) else 0
    ensures HeadAt(before, out, rows, c, row0 + tile, x)
  {
    if x.expert < |c| {
      HeadGrows(rows, c, row0, tile, x);
    }
  }

  /** Launching the tile moves every expert's head on by a tile: one add ... */
  lemma TileStepAt(before: Tally, soFar: Tally, out: Tally, rows: seq<Row>, c: seq<nat>, t: seq<nat>, row0: nat,
                   tile: nat, cap: nat, x: Add)
    requires IsTile(c, t, row0) && t == Clipped(c, row0, tile) && Prefix(c, |c|) <= |rows| && BucketsFit(t, cap)
    requires Prefix(t + [0], |c|) <= |TileRows(rows, c, t, row0)|
    requires HeadAt(before, soFar, rows, c, row0, x)
    requires out(x) == soFar(x) + Launched(TileRows(rows, c, t, row0), t + [0], cap, |c|, x)
    ensures HeadAt(before, out, rows, c, row0 + tile, x)
  {
    TileLaunch(rows, c, t, row0, cap, x);
    StepAt(before, soFar, out, rows, c, row0, tile, x);
  }

  lemma ClippedIsTile(c: seq<nat>, row0: nat, tile: nat)
    ensures IsTile(c, Clipped(c, row0, tile), row0)
    ensures BucketsFit(Clipped(c, row0, tile), tile)
  {
  }

  /** ... and all of them. */
  lemma TileStep(before: Tally, soFar: Tally, rows: seq<Row>, c: seq<nat>, t: seq<nat>, row0: nat, tile: nat, cap: nat)
    requires HeadsAdded(before, soFar, rows, c, row0) && Prefix(c, |c|) <= |rows|
    requires t == Clipped(c, row0, tile) && BucketsFit(t, cap)
    ensures IsTile(c, t, row0) && Prefix(t + [0], |c|) <= |TileRows(rows, c, t, row0)|
    ensures HeadsAdded(before, Launch(TileRows(rows, c, t, row0), t + [0], cap, soFar), rows, c, row0 + tile)
  {
    ClippedIsTile(c, row0, tile);
    WithSentinel(t, |c|);
    var tileRows := TileRows(rows, c, t, row0);
    var out, next := Launch(tileRows, t + [0], cap, soFar), row0 + tile;
    forall x: Add ensures HeadAt(before, out, rows, c, next, x) {
      assert HeadAt(before, soFar, rows, c, row0, x);
      TileStepAt(before, soFar, out, rows, c, t, row0, tile, cap, x);
    }
  }

  /** A tile without rows, which the code does not launch, would add nothing. */
  lemma EmptyTile(before: Tally, soFar: Tally, rows: seq<Row>, c: seq<nat>, t: seq<nat>, row0: nat, tile: nat,
                  next: nat)
    requires HeadsAdded(before, soFar, rows, c, row0) && Prefix(c, |c|) <= |rows|
    requires t == Clipped(c, row0, tile) && next == row0 + tile && Prefix(t, |c|) == 0
    ensures HeadsAdded(before, soFar, rows, c, next)
  {
    forall x: Add ensures HeadAt(before, soFar, rows, c, next, x) {
      assert HeadAt(before, soFar, rows, c, row0, x);
      if x.expert < |c| {
        PrefixMonotone(t, x.expert + 1, |c|);
        assert t[x.expert] == 0;
      }
      StepAt(before, soFar, soFar, rows, c, row0, tile, x);
    }
  }

  /** One turn of the row-tile loop: a launch on temps of `cap` rows, into which the tile's buckets
      must fit. */
  method RowTile(rows: seq<Row>, c: seq<nat>, row0: nat, tile: nat, cap: nat, soFar: Tally, ghost before: Tally)
    returns (out: Tally)
    requires HeadsAdded(before, soFar, rows, c, row0) && Prefix(c, |c|) <= |rows| && tile <= cap
    ensures BucketsFit(Clipped(c, row0, tile), cap)
    ensures HeadsAdded(before, out, rows, c, row0 + tile)
  {
    var t := Clipped(c, row0, tile);
    if Prefix(t, |c|) == 0 {
      EmptyTile(before, soFar, rows, c, t, row0, tile, row0 + tile);
      out := soFar;
    } else {
      TileStep(before, soFar, rows, c, t, row0, tile, cap);
      out := Launch(TileRows(rows, c, t, row0), t + [0], cap, soFar);
    }
  }

  lemma NothingYet(before: Tally, rows: seq<Row>, c: seq<nat>)
    requires Prefix(c, |c|) <= |rows|
    ensures HeadsAdded(before, before, rows, c, 0)
  {
    forall x: Add ensures HeadAt(before, before, rows, c, 0, x) {
      if x.expert < |c| {
        PrefixMonotone(c, x.expert + 1, |c|);
      }
    }
  }

  /** Once the limit is past every count, the heads are the experts' whole slices. */
  lemma HeadsAreSlices(before: Tally, out: Tally, rows: seq<Row>, c: seq<nat>, limit: nat, adds: seq<Add>)
    requires HeadsAdded(before, out, rows, c, limit) && Cuts(rows, c, adds)
    requires forall e :: 0 <= e < |c| ==> c[e] <= limit
    ensures Added(before, out, adds, Locals(|c|))
  {
    forall x: Add ensures out(x) == before(x) + if x.expert < |c| then multiset(adds)[x] else 0 {
      assert HeadAt(before, out, rows, c, limit, x);
      assert x.expert < |c| ==> SliceIs(rows, c, adds, x.expert);
    }
  }

  lemma TilesCover(maxRows: nat, tile: nat)
    requires tile > 0
    ensures maxRows <= Offset(CeilDiv(maxRows, tile), tile)
  {
    TileStart(maxRows, tile, CeilDiv(maxRows, tile));
  }

  /** The kernel's scratch buffers, allocated once for the layer. */
  datatype Temps = Temps(rows: nat)

  /** The tiles' buckets, in order: tile k has each expert's rows from k tiles on, at most `cap`. */
  ghost predicate TilesOf(tiles: seq<seq<nat>>, c: seq<nat>, cap: nat, count: nat) {
    |tiles| == count && forall k :: 0 <= k < count ==> tiles[k] == Clipped(c, Offset(k, cap), cap)
  }

  lemma TilesFit(tiles: seq<seq<nat>>, c: seq<nat>, cap: nat, count: nat)
    requires TilesOf(tiles, c, cap, count)
    ensures forall k :: 0 <= k < |tiles| ==> BucketsFit(tiles[k], cap)
  {
    forall k | 0 <= k < |tiles| ensures BucketsFit(tiles[k], cap) {
      ClippedIsTile(c, Offset(k, cap), cap);
    }
  }

  lemma OneMoreTile(tiles: seq<seq<nat>>, c: seq<nat>, cap: nat, count: nat)
    requires TilesOf(tiles, c, cap, count)
    ensures TilesOf(tiles + [Clipped(c, Offset(count, cap), cap)], c, cap, count + 1)
  {
  }

  /** _exl3_moe_row_tiles: tiles of as many rows as the temps have. `launched` are the buckets of
      each tile, an empty one included, which is not launched. */
  method RowTiles(rows: seq<Row>, c: seq<nat>, temps: Temps, maxRows: nat, before: Tally, ghost adds: seq<Add>)
    returns (out: Tally, ghost launched: seq<seq<nat>>)
    requires Cuts(rows, c, adds) && temps.rows > 0
    requires forall e :: 0 <= e < |c| ==> c[e] <= maxRows
    ensures Added(before, out, adds, Locals(|c|))
    ensures TilesOf(launched, c, temps.rows, CeilDiv(maxRows, temps.rows))
    ensures forall k :: 0 <= k < |launched| ==> BucketsFit(launched[k], temps.rows)
  {
    var tile := temps.rows;
    out, launched := before, [];
    NothingYet(before, rows, c);
    var tiles := CeilDiv(maxRows, tile);
    for t := 0 to tiles
      invariant HeadsAdded(before, out, rows, c, Offset(t, tile))
      invariant TilesOf(launched, c, temps.rows, t)
    {
      out := RowTile(rows, c, Offset(t, tile), tile, temps.rows, out, before);
      OneMoreTile(launched, c, tile, t);
      launched := launched + [Clipped(c, Offset(t, tile), tile)];
    }
    TilesFit(launched, c, temps.rows, tiles);
    TilesCover(maxRows, tile);
    HeadsAreSlices(before, out, rows, c, Offset(tiles, tile), adds);
  }

  /** A tile larger than the temps loses a bucket that does not fit them: the launch makes none of
      that expert's adds. */
  lemma LargeTileLoses(rows: seq<Row>, c: seq<nat>, t: seq<nat>, row0: nat, cap: nat, x: Add)
    requires IsTile(c, t, row0) && Prefix(c, |c|) <= |rows| && x.expert < |c| && t[x.expert] > cap
    ensures Prefix(t + [0], |c|) <= |TileRows(rows, c, t, row0)|
    ensures Launched(TileRows(rows, c, t, row0), t + [0], cap, |c|, x) == 0
  {
    WithSentinel(t, |c|);
    LaunchedAt(TileRows(rows, c, t, row0), t + [0], cap, |c|, x);
  }

  // ---------------------------------------------------------------------------
  // The plain loop.

  function IdsOf(routes: seq<Route>): (s: set<int>)
    ensures forall i :: 0 <= i < |routes| ==> routes[i].id in s
  {
    set r | r in routes :: r.id
  }

  function Chosen(only: Option<set<nat>>, e: nat): bool {
    only.None? || e in only.value
  }

  /** The index_add_ of one raw id: how often running expert e on the positions that hold `raw`
      makes the add x. */
  function Matching(routes: seq<Route>, raw: int, e: nat, x: Add): nat {
    if routes == [] then 0 else
      var r := routes[|routes| - 1];
      Matching(routes[..|routes| - 1], raw, e, x) + if r.id == raw && Add(r.token, e, r.weight) == x then 1 else 0
  }

  /** How often the loop has made the add x once it has been through the ids in `done`. */
  function Looped(routes: seq<Route>, done: set<int>, n: nat, emap: Option<seq<int>>, only: Option<set<nat>>,
                  x: Add): nat {
    if routes == [] then 0 else
      var r := routes[|routes| - 1];
      Looped(routes[..|routes| - 1], done, n, emap, only, x) + if LoopMakes(r, done, n, emap, only, x) then 1 else 0
  }

  predicate LoopMakes(r: Route, done: set<int>, n: nat, emap: Option<seq<int>>, only: Option<set<nat>>, x: Add) {
    && r.id in done
    && LoopLocal(r.id, n, emap) == Some(x.expert)
    && Chosen(only, x.expert)
    && r.token == x.token && r.weight == x.weight
  }

  lemma {:induction false} LoopedStep(routes: seq<Route>, done: set<int>, raw: int, n: nat, emap: Option<seq<int>>,
                                      only: Option<set<nat>>, x: Add)
    requires raw !in done
    ensures Looped(routes, done + {raw}, n, emap, only, x) == Looped(routes, done, n, emap, only, x) +
              match LoopLocal(raw, n, emap)
              case None => 0
              case Some(e) => if Chosen(only, e) then Matching(routes, raw, e, x) else 0
  {
    if routes != [] {
      LoopedStep(routes[..|routes| - 1], done, raw, n, emap, only, x);
    }
  }

  lemma {:induction false} NothingLooped(routes: seq<Route>, n: nat, emap: Option<seq<int>>, only: Option<set<nat>>,
                                         x: Add)
    ensures Looped(routes, {}, n, emap, only, x) == 0
  {
    if routes != [] {
      NothingLooped(routes[..|routes| - 1], n, emap, only, x);
    }
  }

  lemma {:induction false} LoopedAll(routes: seq<Route>, done: set<int>, n: nat, emap: Option<seq<int>>,
                                     only: Option<set<nat>>, x: Add)
    requires forall i :: 0 <= i < |routes| ==> routes[i].id in done
    ensures Looped(routes, done, n, emap, only, x) ==
            if x.expert < n && Chosen(only, x.expert) then multiset(LoopAdds(routes, n, emap))[x] else 0
  {
    if routes != [] {
      var init, r := routes[..|routes| - 1], routes[|routes| - 1];
      LoopedAll(init, done, n, emap, only, x);
      var last := Add(r.token, LoopExpert(r.id, n, emap), r.weight);
      assert LoopAdds(routes, n, emap) == LoopAdds(init, n, emap) + [last];
    }
  }

  function Picked(only: Option<set<nat>>, n: nat): set<nat> {
    set e | e in Locals(n) && Chosen(only, e)
  }

  /** How the loop's tally stands once it has been through the ids in `done`. */
  ghost predicate LoopedTo(before: Tally, out: Tally, routes: seq<Route>, done: set<int>, n: nat,
                           emap: Option<seq<int>>, only: Option<set<nat>>) {
    forall x: Add :: out(x) == before(x) + Looped(routes, done, n, emap, only, x)
  }

  function RunRaw(routes: seq<Route>, raw: int, e: nat): Tally {
    (x: Add) => Matching(routes, raw, e, x)
  }

  /** One turn of apply_exl3_python_loop. */
  method LoopTurn(routes: seq<Route>, raw: int, n: nat, emap: Option<seq<int>>, only: Option<set<nat>>,
                  soFar: Tally, ghost before: Tally, ghost done: set<int>)
    returns (out: Tally)
    requires LoopedTo(before, soFar, routes, done, n, emap, only) && raw !in done
    ensures LoopedTo(before, out, routes, done + {raw}, n, emap, only)
  {
    forall x: Add {
      LoopedStep(routes, done, raw, n, emap, only, x);
    }
    var local := LoopLocal(raw, n, emap);
    if local == None || !Chosen(only, local.value) {
      out := soFar;
    } else {
      out := Sum(soFar, RunRaw(routes, raw, local.value));
    }
  }

  /** Once the loop has been through all the ids, its tally is its own reading's. */
  lemma LoopedIsAdded(before: Tally, out: Tally, routes: seq<Route>, done: set<int>, n: nat, emap: Option<seq<int>>,
                      only: Option<set<nat>>)
    requires LoopedTo(before, out, routes, done, n, emap, only)
    requires forall i :: 0 <= i < |routes| ==> routes[i].id in done
    ensures Added(before, out, LoopAdds(routes, n, emap), Picked(only, n))
  {
    forall x: Add
      ensures out(x) == before(x) + if x.expert in Picked(only, n) then multiset(LoopAdds(routes, n, emap))[x] else 0
    {
      LoopedAll(routes, done, n, emap, only, x);
    }
  }

  lemma NotLoopedYet(before: Tally, routes: seq<Route>, n: nat, emap: Option<seq<int>>, only: Option<set<nat>>)
    ensures LoopedTo(before, before, routes, {}, n, emap, only)
  {
    forall x: Add {
      NothingLooped(routes, n, emap, only, x);
    }
  }

  /** apply_exl3_python_loop: over the distinct ids, in whatever order, it makes the adds as it
      understands the ids. */
  method PythonLoop(routes: seq<Route>, n: nat, emap: Option<seq<int>>, only: Option<set<nat>>, before: Tally)
    returns (out: Tally)
    ensures Added(before, out, LoopAdds(routes, n, emap), Picked(only, n))
  {
    out := before;
    var todo := IdsOf(routes);
    ghost var done: set<int> := {};
    NotLoopedYet(before, routes, n, emap, only);
    while todo != {}
      invariant todo !! done && IdsOf(routes) == todo + done
      invariant LoopedTo(before, out, routes, done, n, emap, only)
      decreases |todo|
    {
      var raw :| raw in todo;
      out := LoopTurn(routes, raw, n, emap, only, out, before, done);
      todo, done := todo - {raw}, done + {raw};
    }
    LoopedIsAdded(before, out, routes, done, n, emap, only);
  }

  // ---------------------------------------------------------------------------
  // The dispatch.

  /** The environment switches and the layer properties that pick a tier. */
  datatype Tiers = Tiers(
    rowTile: bool, grouped: bool, groupedTier: bool, fatKernel: bool, batched: bool, sorted: bool, sharedSuh: bool)

  /** None of the switches is set that keep fat experts away from the plain loop. */
  predicate Legacy(t: Tiers) {
    !t.rowTile && !t.grouped && !t.fatKernel && !t.batched && !t.sorted
  }

  function MaxOf(c: seq<nat>): (m: nat)
    ensures forall e :: 0 <= e < |c| ==> c[e] <= m
    ensures c != [] ==> m in c
    ensures c == [] ==> m == 0
  {
    if c == [] then 0
    else
      var m := MaxOf(c[..|c| - 1]);
      if m > c[|c| - 1] then m else c[|c| - 1]
  }

  /** The thin experts from the kernel and the fat ones from another tier make all the adds. */
  lemma ThinPlusFat(thin: Tally, out: Tally, adds: seq<Add>, ec: seq<nat>, cap: nat, n: nat)
    requires |ec| == n + 1
    requires Added(Nothing(), thin, adds, Thin(ec, cap, n))
    requires Added(thin, out, adds, FatBelow(ec[..n], cap, n))
    ensures Exactly(out, adds, Locals(n))
  {
    forall x: Add ensures out(x) == if x.expert in Locals(n) then multiset(adds)[x] else 0 {
      assert thin(x) == if x.expert in Thin(ec, cap, n) then multiset(adds)[x] else 0;
      assert out(x) == thin(x) + if x.expert in FatBelow(ec[..n], cap, n) then multiset(adds)[x] else 0;
    }
  }

  lemma AllIsExact(out: Tally, adds: seq<Add>, n: nat)
    requires Added(Nothing(), out, adds, Locals(n))
    ensures Exactly(out, adds, Locals(n))
  {
    forall x: Add ensures out(x) == if x.expert in Locals(n) then multiset(adds)[x] else 0 {
      assert out(x) == Nothing()(x) + if x.expert in Locals(n) then multiset(adds)[x] else 0;
    }
  }

  /** The tiers for experts above the cap, once the thin ones are done (overlay/exl3.py:1770-1816). */
  method FatTiers(routes: seq<Route>, rows: seq<Row>, counts: seq<nat>, n: nat, emap: Option<seq<int>>, cap: nat,
                  useBatched: bool, useSorted: bool, before: Tally)
    returns (out: Tally)
    requires |counts| == n && Cuts(rows, counts, Adds(routes, n, emap))
    ensures useBatched || useSorted ==> Added(before, out, Adds(routes, n, emap), FatBelow(counts, cap, n))
    ensures !useBatched && !useSorted ==> Added(before, out, LoopAdds(routes, n, emap), FatBelow(counts, cap, n))
  {
    if useBatched {
      out := SortedFat(rows, counts, cap, before, Adds(routes, n, emap));
    } else if useSorted {
      out := SortedFat(rows, counts, cap, before, Adds(routes, n, emap));
    } else {
      out := before;
      var fat := FatBelow(counts, cap, n);
      if fat != {} {
        out := PythonLoop(routes, n, emap, Some(fat), before);
        assert Picked(Some(fat), n) == fat;
      }
    }
  }

  /** A route past the map whose id is the number of an expert above the cap. */
  ghost predicate Overrun(routes: seq<Route>, n: nat, emap: Option<seq<int>>, cap: nat) {
    exists i :: 0 <= i < |routes| && PastMap(routes[i].id, n, emap)
                && Count(Adds(routes, n, emap), routes[i].id) > cap
  }

  /** The legacy tier, thin experts from the kernel and fat ones from the loop, makes all the adds
      exactly when no route past the map names an expert above the cap. */
  lemma LegacyIff(thin: Tally, out: Tally, routes: seq<Route>, ec: seq<nat>, cap: nat, n: nat, emap: Option<seq<int>>)
    requires ec == Counts(Adds(routes, n, emap), n + 1)
    requires Added(Nothing(), thin, Adds(routes, n, emap), Thin(ec, cap, n))
    requires Added(thin, out, LoopAdds(routes, n, emap), FatBelow(ec[..n], cap, n))
    ensures Exactly(out, Adds(routes, n, emap), Locals(n)) <==> !Overrun(routes, n, emap, cap)
  {
    forall x: Add ensures LegacyAt(out, routes, n, emap, cap, x) {
      LegacyAdd(thin, out, routes, ec, cap, n, emap, x);
    }
    if Overrun(routes, n, emap, cap) {
      OverrunAdds(out, routes, n, emap, cap);
    } else {
      NoOverrunExact(out, routes, n, emap, cap);
    }
  }

  /** What the legacy tier makes of the add x: the extra ones too, if its expert is above the cap. */
  ghost predicate LegacyAt(out: Tally, routes: seq<Route>, n: nat, emap: Option<seq<int>>, cap: nat, x: Add) {
    var adds := Adds(routes, n, emap);
    out(x) == if x.expert >= n then 0
              else multiset(adds)[x] + if Count(adds, x.expert) > cap then Extra(routes, n, emap, x) else 0
  }

  lemma OverrunAdds(out: Tally, routes: seq<Route>, n: nat, emap: Option<seq<int>>, cap: nat)
    requires (forall x: Add :: LegacyAt(out, routes, n, emap, cap, x)) && Overrun(routes, n, emap, cap)
    ensures !Exactly(out, Adds(routes, n, emap), Locals(n))
  {
    var i :| 0 <= i < |routes| && PastMap(routes[i].id, n, emap) && Count(Adds(routes, n, emap), routes[i].id) > cap;
    var x := Add(routes[i].token, routes[i].id, routes[i].weight);
    ExtraIff(routes, n, emap, x);
    assert LegacyAt(out, routes, n, emap, cap, x);
    assert x.expert in Locals(n) && out(x) > multiset(Adds(routes, n, emap))[x];
  }

  lemma NoOverrunExact(out: Tally, routes: seq<Route>, n: nat, emap: Option<seq<int>>, cap: nat)
    requires (forall x: Add :: LegacyAt(out, routes, n, emap, cap, x)) && !Overrun(routes, n, emap, cap)
    ensures Exactly(out, Adds(routes, n, emap), Locals(n))
  {
    forall x: Add ensures out(x) == if x.expert in Locals(n) then multiset(Adds(routes, n, emap))[x] else 0 {
      assert LegacyAt(out, routes, n, emap, cap, x);
      ExtraIff(routes, n, emap, x);
    }
  }

  lemma LegacyAdd(thin: Tally, out: Tally, routes: seq<Route>, ec: seq<nat>, cap: nat, n: nat, emap: Option<seq<int>>,
                  x: Add)
    requires ec == Counts(Adds(routes, n, emap), n + 1)
    requires Added(Nothing(), thin, Adds(routes, n, emap), Thin(ec, cap, n))
    requires Added(thin, out, LoopAdds(routes, n, emap), FatBelow(ec[..n], cap, n))
    ensures LegacyAt(out, routes, n, emap, cap, x)
  {
    var adds := Adds(routes, n, emap);
    assert thin(x) == if x.expert in Thin(ec, cap, n) then multiset(adds)[x] else 0;
    assert out(x) == thin(x)
                     + if x.expert in FatBelow(ec[..n], cap, n) then multiset(LoopAdds(routes, n, emap))[x] else 0;
    if x.expert < n {
      LoopAddsAre(routes, n, emap, x);
    }
  }

  /** When the dispatch makes all the adds: a batch that fits the temps needs every local expert's
      count to fit them too, and the legacy tier must not meet an overrun. */
  ghost predicate Complete(routes: seq<Route>, tokens: nat, n: nat, emap: Option<seq<int>>, cap: nat, tiers: Tiers) {
    if tokens <= cap then CountsFit(Adds(routes, n, emap), n, cap)
    else Legacy(tiers) ==> !Overrun(routes, n, emap, cap)
  }

  lemma NoOverrunIfThin(routes: seq<Route>, n: nat, emap: Option<seq<int>>, cap: nat, counts: seq<nat>)
    requires counts == Counts(Adds(routes, n, emap), n) && forall e :: 0 <= e < n ==> counts[e] <= cap
    ensures !Overrun(routes, n, emap, cap)
  {
  }

  /** apply_exl3_fused_moe. `sorted` is what argsort made of the routes. */
  method Apply(ids: seq<seq<int>>, weights: seq<seq<real>>, n: nat, emap: Option<seq<int>>, temps: Temps,
               sorted: seq<Add>, tiers: Tiers, tileGateUp: nat, tileDown: nat)
    returns (out: Tally, ghost tiles: seq<seq<nat>>)
    requires Rectangular(ids, weights) && n > 0 && temps.rows > 0 && tileGateUp > 0 && tileDown > 0
    requires SortOf(sorted, Adds(Flatten(ids, weights), n, emap))
    ensures forall k :: 0 <= k < |tiles| ==> BucketsFit(tiles[k], temps.rows)
    ensures var counts := Counts(Adds(Flatten(ids, weights), n, emap), n);
            tiers.rowTile && |ids| > temps.rows && MaxOf(counts) > temps.rows ==>
              TilesOf(tiles, counts, temps.rows, CeilDiv(MaxOf(counts), temps.rows))
    ensures Exactly(out, Adds(Flatten(ids, weights), n, emap), Locals(n))
            <==> Complete(Flatten(ids, weights), |ids|, n, emap, temps.rows, tiers)
  {
    tiles := [];
    var cap := temps.rows;
    var routes := Flatten(ids, weights);
    var adds, rows := Adds(routes, n, emap), Rows(sorted);
    var ec := Counts(adds, n + 1);
    var counts := ec[..n];
    CountsCut(sorted, adds, n + 1);
    CountsCut(sorted, adds, n);
    assert counts == Counts(adds, n);
    LaunchThin(rows, ec, adds, cap, n, Nothing());
    var thin := Launch(rows, ec, cap, Nothing());
    if |ids| <= cap {
      SingleLaunchIff(sorted, adds, cap, n);
      return thin, [];
    }
    if tiers.grouped && !tiers.rowTile && tiers.groupedTier {
      out := GroupedFat(counts, cap, rows, tileGateUp, tileDown, thin, adds);
      ThinPlusFat(thin, out, adds, ec, cap, n);
      return;
    }
    var wantFatKernel := tiers.fatKernel || tiers.grouped;
    var wantBatched := tiers.batched || wantFatKernel;
    var useSorted := tiers.sorted || wantBatched;
    var useBatched := wantBatched && tiers.sharedSuh;
    var launched := false;
    out := Nothing();
    if useBatched && !tiers.rowTile {
      out := thin;
      launched := true;
    }
    var maxRows := MaxOf(counts);
    if maxRows <= cap {
      if !launched {
        out := thin;
      }
      NoFatRoutes(out, adds, cap, ec, n);
      NoOverrunIfThin(routes, n, emap, cap, counts);
      return;
    }
    if tiers.rowTile {
      out, tiles := RowTiles(rows, counts, temps, maxRows, out, adds);
      AllIsExact(out, adds, n);
      return;
    }
    if !launched {
      out := thin;
    }
    out := FatTiers(routes, rows, counts, n, emap, cap, useBatched, useSorted, out);
    if useBatched || useSorted {
      ThinPlusFat(thin, out, adds, ec, cap, n);
    } else {
      LegacyIff(thin, out, routes, ec, cap, n, emap);
    }
  }

  /** Distinct experts within every token are enough for a batch that fits the temps. */
  lemma DistinctIsComplete(ids: seq<seq<int>>, weights: seq<seq<real>>, n: nat, emap: Option<seq<int>>, cap: nat,
                           tiers: Tiers)
    requires Rectangular(ids, weights) && |ids| <= cap
    requires forall t :: 0 <= t < |ids| ==> DistinctExperts(ids[t], n, emap)
    ensures Complete(Flatten(ids, weights), |ids|, n, emap, cap, tiers)
  {
    forall e | 0 <= e < n ensures Count(Adds(Flatten(ids, weights), n, emap), e) <= cap {
      CountAtMostTokens(ids, weights, n, emap, e);
    }
  }

  /** The legacy tier on a map of one entry: two tokens go to expert 1 through the map, which is
      one above the cap, and the id 1 of a third, which the map does not have, is taken for
      expert 1 by the loop. */
  method ShortMapExample(sorted: seq<Add>) returns (out: Tally)
    requires SortOf(sorted, Adds(Flatten([[0], [0], [1]], [[1.0], [1.0], [1.0]]), 2, Some([1])))
    ensures !Exactly(out, Adds(Flatten([[0], [0], [1]], [[1.0], [1.0], [1.0]]), 2, Some([1])), Locals(2))
  {
    var ids, weights := [[0], [0], [1]], [[1.0], [1.0], [1.0]];
    var legacy := Tiers(false, false, false, false, false, false, false);
    ShortMapOverruns();
    ghost var tiles;
    out, tiles := Apply(ids, weights, 2, Some([1]), Temps(1), sorted, legacy, 1, 1);
  }

  function ShortMapRoutes(): seq<Route> {
    [Route(0, 0, 1.0), Route(1, 0, 1.0), Route(2, 1, 1.0)]
  }

  lemma ShortMapFlat()
    ensures Flatten([[0], [0], [1]], [[1.0], [1.0], [1.0]]) == ShortMapRoutes()
  {
    var ids: seq<seq<int>>, weights: seq<seq<real>> := [[0], [0], [1]], [[1.0], [1.0], [1.0]];
    assert ids[..2][..1][..0] == [] && weights[..2][..1][..0] == [];
    assert Flatten(ids[..2][..1], weights[..2][..1]) == ShortMapRoutes()[..1];
    assert Flatten(ids[..2], weights[..2]) == ShortMapRoutes()[..2];
  }

  lemma ShortMapOverruns()
    ensures Overrun(Flatten([[0], [0], [1]], [[1.0], [1.0], [1.0]]), 2, Some([1]), 1)
  {
    ShortMapFlat();
    var adds := Adds(ShortMapRoutes(), 2, Some([1]));
    assert adds == [Add(0, 1, 1.0), Add(1, 1, 1.0), Add(2, 2, 1.0)];
    assert adds[..2][..1][..0] == [];
    assert Count(adds[..2][..1], 1) == 1;
    assert Count(adds[..2], 1) == 2;
    assert Count(adds, 1) == 2;
    assert PastMap(ShortMapRoutes()[2].id, 2, Some([1]));
  }

  // ---------------------------------------------------------------------------
  // What the layer returns.

  /** A token's output, straight from its top-k: the weighted sum over its local experts. */
  function TokenSum(token: nat, ids: seq<int>, weights: seq<real>, n: nat, emap: Option<seq<int>>,
                    value: Add -> real): real
    requires |ids| == |weights|
  {
    if ids == [] then 0.0
    else
      var k := |ids| - 1;
      TokenSum(token, ids[..k], weights[..k], n, emap, value) + Term(token, ids[k], weights[k], n, emap, value)
  }

  function Term(token: nat, id: int, weight: real, n: nat, emap: Option<seq<int>>, value: Add -> real): real {
    if MapToLocal(id, n, emap) < n then value(Add(token, MapToLocal(id, n, emap), weight)) else 0.0
  }

  function LocalOnly(a: seq<Add>, n: nat): seq<Add> {
    if a == [] then []
    else if a[|a| - 1].expert < n then LocalOnly(a[..|a| - 1], n) + [a[|a| - 1]]
    else LocalOnly(a[..|a| - 1], n)
  }

  lemma {:induction false} LocalOnlyCount(a: seq<Add>, n: nat, x: Add)
    ensures multiset(LocalOnly(a, n))[x] == if x.expert < n then multiset(a)[x] else 0
  {
    if a != [] {
      LocalOnlyCount(a[..|a| - 1], n, x);
      assert a == a[..|a| - 1] + [a[|a| - 1]];
    }
  }

  lemma {:induction false} LocalOnlyConcat(a: seq<Add>, b: seq<Add>, n: nat)
    ensures LocalOnly(a + b, n) == LocalOnly(a, n) + LocalOnly(b, n)
  {
    if b == [] {
      assert a + b == a;
    } else {
      assert (a + b)[..|a + b| - 1] == a + b[..|b| - 1];
      LocalOnlyConcat(a, b[..|b| - 1], n);
    }
  }

  lemma OutputStep(init: seq<Add>, x: Add, n: nat, token: nat, value: Add -> real)
    ensures Output(LocalOnly(init + [x], n), token, value) ==
            Output(LocalOnly(init, n), token, value)
              + if x.expert < n && x.token == token then value(x) else 0.0
  {
    var a, kept := init + [x], LocalOnly(init, n);
    assert a[..|a| - 1] == init;
    if x.expert < n {
      assert (kept + [x])[..|kept|] == kept;
    }
  }

  lemma {:induction false} OtherToken(a: seq<Add>, n: nat, token: nat, value: Add -> real)
    requires forall i :: 0 <= i < |a| ==> a[i].token != token
    ensures Output(LocalOnly(a, n), token, value) == 0.0
  {
    if a != [] {
      var init, x := a[..|a| - 1], a[|a| - 1];
      OtherToken(init, n, token, value);
      OutputStep(init, x, n, token, value);
      assert a == init + [x];
    }
  }

  lemma LastRoute(token: nat, ids: seq<int>, weights: seq<real>, n: nat, emap: Option<seq<int>>) returns (x: Add)
    requires |ids| == |weights| > 0
    ensures var k := |ids| - 1;
            && x == Add(token, MapToLocal(ids[k], n, emap), weights[k])
            && Adds(TokenRoutes(token, ids, weights), n, emap)
                 == Adds(TokenRoutes(token, ids[..k], weights[..k]), n, emap) + [x]
  {
    var k := |ids| - 1;
    var init := TokenRoutes(token, ids[..k], weights[..k]);
    x := Add(token, MapToLocal(ids[k], n, emap), weights[k]);
    assert TokenRoutes(token, ids, weights) == init + [Route(token, ids[k], weights[k])];
    AddsConcat(init, [Route(token, ids[k], weights[k])], n, emap);
  }

  lemma {:induction false} OwnToken(token: nat, ids: seq<int>, weights: seq<real>, n: nat, emap: Option<seq<int>>,
                                    value: Add -> real)
    requires |ids| == |weights|
    ensures Output(LocalOnly(Adds(TokenRoutes(token, ids, weights), n, emap), n), token, value)
            == TokenSum(token, ids, weights, n, emap, value)
  {
    if ids != [] {
      var k := |ids| - 1;
      OwnToken(token, ids[..k], weights[..k], n, emap, value);
      var x := LastRoute(token, ids, weights, n, emap);
      OutputStep(Adds(TokenRoutes(token, ids[..k], weights[..k]), n, emap), x, n, token, value);
    }
  }

  lemma {:induction false} LoopOutput(ids: seq<seq<int>>, weights: seq<seq<real>>, n: nat, emap: Option<seq<int>>,
                                      token: nat, value: Add -> real)
    requires Rectangular(ids, weights)
    ensures Output(LocalOnly(Adds(Flatten(ids, weights), n, emap), n), token, value)
            == if token < |ids| then TokenSum(token, ids[token], weights[token], n, emap, value) else 0.0
  {
    if ids != [] {
      var t := |ids| - 1;
      var before, last := Flatten(ids[..t], weights[..t]), TokenRoutes(t, ids[t], weights[t]);
      LoopOutput(ids[..t], weights[..t], n, emap, token, value);
      AddsConcat(before, last, n, emap);
      LocalOnlyConcat(Adds(before, n, emap), Adds(last, n, emap), n);
      OutputConcat(LocalOnly(Adds(before, n, emap), n), LocalOnly(Adds(last, n, emap), n), token, value);
      if token == t {
        OwnToken(t, ids[t], weights[t], n, emap, value);
      } else {
        OtherToken(Adds(last, n, emap), n, token, value);
      }
    }
  }

  /** Whatever tier made the adds, and in whatever order, each token ends up with the weighted
      sum over its own local experts (exact sums; rounding is not modelled). */
  lemma EveryTierSameOutput(ids: seq<seq<int>>, weights: seq<seq<real>>, n: nat, emap: Option<seq<int>>, out: Tally,
                            made: seq<Add>, token: nat, value: Add -> real)
    requires Rectangular(ids, weights)
    requires Exactly(out, Adds(Flatten(ids, weights), n, emap), Locals(n))
    requires forall x: Add :: multiset(made)[x] == out(x)
    ensures Output(made, token, value)
            == if token < |ids| then TokenSum(token, ids[token], weights[token], n, emap, value) else 0.0
  {
    var adds := Adds(Flatten(ids, weights), n, emap);
    forall x: Add ensures multiset(made)[x] == multiset(LocalOnly(adds, n))[x] {
      LocalOnlyCount(adds, n, x);
      assert out(x) == if x.expert in Locals(n) then multiset(adds)[x] else 0;
    }
    OutputOfPermutation(made, LocalOnly(adds, n), token, value);
    LoopOutput(ids, weights, n, emap, token, value);
  }
}

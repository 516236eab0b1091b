/** The device-side tables of the grouped fat tier (overlay/exl3.py:1323-1368) and the three
    launches that read them (1408-1450). */
module GroupedTables {
  import opened Wrappers
  import opened Arithmetic
  import opened Routing

  // ---------------------------------------------------------------------------
  // Tiles of one expert.

  /** t * tile, added up. */
  function Offset(t: nat, tile: nat): nat {
    if t == 0 then 0 else Offset(t - 1, tile) + tile
  }

  lemma {:induction false} OffsetIs(t: nat, tile: nat)
    ensures Offset(t, tile) == t * tile
  {
    if t > 0 {
      OffsetIs(t - 1, tile);
      assert (t - 1 + 1) * tile == (t - 1) * tile + tile;
    }
  }

  /** The start of a tile lies inside the rows exactly for the tiles that exist. */
  lemma TileStart(rows: nat, tile: nat, t: nat)
    requires tile > 0
    ensures t < CeilDiv(rows, tile) <==> Offset(t, tile) < rows
  {
    var q := CeilDiv(rows, tile);
    assert rows <= q * tile < rows + tile;
    MulMonotone(t + 1, q, tile);
    MulMonotone(q, t, tile);
    assert (t + 1) * tile == t * tile + tile;
    OffsetIs(t, tile);
  }

  /** Splitting rows among experts costs at most one part-filled tile an expert. */
  lemma TilesAdd(a: nat, b: nat, tile: nat)
    requires tile > 0
    ensures a / tile + CeilDiv(b, tile) <= (a + b) / tile + 1
  {
    var x, y := a / tile, CeilDiv(b, tile);
    assert x * tile <= a;
    assert y * tile < b + tile;
    assert (x + y) * tile == x * tile + y * tile;
    var z := (a + b) / tile;
    assert a + b < (z + 1) * tile;
    MulMonotone(z + 2, x + y, tile);
    assert (z + 2) * tile == (z + 1) * tile + tile;
  }

  /** fat_rows: the counts above the cap, the others as zero. */
  function FatRows(c: seq<nat>, cap: nat): (f: seq<nat>)
    ensures |f| == |c|
    ensures forall e :: 0 <= e < |c| ==> f[e] == if c[e] > cap then c[e] else 0
  {
    seq(|c|, e requires 0 <= e < |c| => if c[e] > cap then c[e] else 0)
  }

  function TileCounts(f: seq<nat>, tile: nat): (t: seq<nat>)
    requires tile > 0
    ensures |t| == |f| && forall e :: 0 <= e < |f| ==> t[e] == CeilDiv(f[e], tile)
  {
    seq(|f|, e requires 0 <= e < |f| => CeilDiv(f[e], tile))
  }

  lemma {:induction false} SegmentBound(f: seq<nat>, tile: nat, e: nat)
    requires tile > 0 && e <= |f|
    ensures Prefix(TileCounts(f, tile), e) <= Prefix(f, e) / tile + e
  {
    if e > 0 {
      SegmentBound(f, tile, e - 1);
      TilesAdd(Prefix(f, e - 1), f[e - 1], tile);
    }
  }

  /** t holds the number of tiles of each entry of f, said without a division. */
  ghost predicate Tiled(f: seq<nat>, t: seq<nat>, tile: nat) {
    && tile > 0 && |t| == |f|
    && forall e, k: nat {:trigger t[e], Offset(k, tile)} :: 0 <= e < |f| ==> (k < t[e] <==> Offset(k, tile) < f[e])
  }

  lemma TileCountsTiled(f: seq<nat>, tile: nat)
    requires tile > 0
    ensures Tiled(f, TileCounts(f, tile), tile)
  {
    forall e, k: nat | 0 <= e < |f| ensures k < TileCounts(f, tile)[e] <==> Offset(k, tile) < f[e] {
      TileStart(f[e], tile, k);
    }
  }

  lemma {:induction false} NoTilesNoRows(f: seq<nat>, t: seq<nat>, tile: nat, d: nat, e: nat)
    requires Tiled(f, t, tile) && d <= e <= |f| && Prefix(t, d) == Prefix(t, e)
    ensures Prefix(f, d) == Prefix(f, e)
  {
    if d < e {
      PrefixMonotone(t, d, e - 1);
      assert Offset(0, tile) == 0;
      NoTilesNoRows(f, t, tile, d, e - 1);
    }
  }

  lemma {:induction false} FatBelowAll(c: seq<nat>, cap: nat, e: nat)
    requires e <= |c|
    ensures Prefix(FatRows(c, cap), e) <= Prefix(c, e)
  {
    if e > 0 {
      FatBelowAll(c, cap, e - 1);
    }
  }

  // ---------------------------------------------------------------------------
  // The tables.

  /** seg_expert, seg_row0 and seg_rows of one kernel block. */
  datatype Segment = Segment(expert: nat, row0: nat, rows: nat)

  /** row_expert, row_token and row_weight of one fat row. */
  datatype FatRow = FatRow(expert: nat, token: nat, weight: real)

  datatype Tables = Tables(segs: seq<Segment>, numSegs: nat, fat: seq<FatRow>, numRows: nat)

  /** searchsorted(cumsum(c), v, right=True).clamp(max=|c| - 1), and how far v lies into that bucket. */
  function ClampedBucket(c: seq<nat>, v: nat): (e: nat)
    requires |c| > 0
    ensures e < |c| && Prefix(c, e) <= v
  {
    PrefixMonotone(c, |c| - 1, |c|);
    if Bucket(c, v, 0) < |c| then Bucket(c, v, 0) else |c| - 1
  }

  /** Segment s, given the tile counts t. */
  function SegmentAt(f: seq<nat>, t: seq<nat>, tile: nat, s: nat): Segment
    requires |f| == |t| > 0
  {
    var e := ClampedBucket(t, s);
    var local := s - Prefix(t, e);
    Segment(e, Prefix(f, e) + Offset(local, tile), Clamp(f[e] - Offset(local, tile), 0, tile))
  }

  /** The sorted-buffer index that fat row r is taken from, before the clamp. */
  function SourceOf(c: seq<nat>, f: seq<nat>, r: nat): nat
    requires |f| == |c| > 0
  {
    var e := ClampedBucket(f, r);
    Prefix(c, e) + (r - Prefix(f, e))
  }

  function FatRowAt(c: seq<nat>, f: seq<nat>, rows: seq<Row>, r: nat): FatRow
    requires |f| == |c| > 0 && r < |rows|
  {
    var src := Clamp(SourceOf(c, f, r), 0, |rows| - 1);
    FatRow(ClampedBucket(f, r), rows[src].token, rows[src].weight)
  }

  function TablesOf(c: seq<nat>, f: seq<nat>, t: seq<nat>, rows: seq<Row>, tile: nat, maxSegs: nat): Tables
    requires |c| == |f| == |t| > 0
  {
    Tables(
      seq(maxSegs, s requires 0 <= s < maxSegs => SegmentAt(f, t, tile, s)),
      Prefix(t, |t|),
      seq(|rows|, r requires 0 <= r < |rows| => FatRowAt(c, f, rows, r)),
      Prefix(f, |f|))
  }

  function BuildTables(c: seq<nat>, cap: nat, rows: seq<Row>, tile: nat): (t: Tables)
    requires c != [] && tile > 0
  {
    var f := FatRows(c, cap);
    TablesOf(c, f, TileCounts(f, tile), rows, tile, CeilDiv(|rows|, tile) + |c|)
  }

  // ---------------------------------------------------------------------------
  // Segments.

  lemma LiveSegment(f: seq<nat>, t: seq<nat>, tile: nat, s: nat)
    requires Tiled(f, t, tile) && f != [] && s < Prefix(t, |t|)
    ensures var g := SegmentAt(f, t, tile, s);
            && g.expert < |f| && 1 <= g.rows <= tile
            && Prefix(f, g.expert) <= g.row0 && g.row0 + g.rows <= Prefix(f, g.expert + 1)
  {
    var e := ClampedBucket(t, s);
    assert s - Prefix(t, e) < t[e];
  }

  lemma DeadSegment(f: seq<nat>, t: seq<nat>, tile: nat, s: nat)
    requires Tiled(f, t, tile) && f != [] && s >= Prefix(t, |t|)
    ensures SegmentAt(f, t, tile, s).rows == 0
  {
    BucketPastEnd(t, s, 0);
    var e := ClampedBucket(t, s);
    assert s - Prefix(t, e) >= t[e];
  }

  /** Where segment s starts; past the live ones, where the fat rows end. */
  function StartOf(f: seq<nat>, t: seq<nat>, tile: nat, s: nat): nat
    requires |f| == |t| > 0
  {
    if s < Prefix(t, |t|) then SegmentAt(f, t, tile, s).row0 else Prefix(f, |f|)
  }

  /** The bucket of a boundary lies past it, with only empty buckets between. */
  lemma BucketOfBoundary(t: seq<nat>, e: nat)
    requires e <= |t| && Prefix(t, e) < Prefix(t, |t|)
    ensures ClampedBucket(t, Prefix(t, e)) >= e
    ensures Prefix(t, ClampedBucket(t, Prefix(t, e))) == Prefix(t, e)
  {
    var d := ClampedBucket(t, Prefix(t, e));
    PrefixMonotone(t, d, |t|);
    if d + 1 <= e {
      PrefixMonotone(t, d + 1, e);
    } else {
      PrefixMonotone(t, e, d);
    }
  }

  /** A segment that begins where expert e's tiles would begin starts at e's rows. */
  lemma StartAtExpert(f: seq<nat>, t: seq<nat>, tile: nat, e: nat)
    requires Tiled(f, t, tile) && f != [] && e <= |f|
    ensures StartOf(f, t, tile, Prefix(t, e)) == Prefix(f, e)
  {
    PrefixMonotone(t, e, |f|);
    if Prefix(t, e) < Prefix(t, |f|) {
      BucketOfBoundary(t, e);
      NoTilesNoRows(f, t, tile, e, ClampedBucket(t, Prefix(t, e)));
      assert Offset(0, tile) == 0;
    } else {
      NoTilesNoRows(f, t, tile, e, |f|);
    }
  }

  lemma NextTile(f: seq<nat>, t: seq<nat>, tile: nat, s: nat, e: nat)
    requires Tiled(f, t, tile) && e < |f| && Prefix(t, e) <= s && s + 1 < Prefix(t, e + 1)
    ensures StartOf(f, t, tile, s + 1) == Prefix(f, e) + Offset(s + 1 - Prefix(t, e), tile)
    ensures f[e] > Offset(s + 1 - Prefix(t, e), tile)
  {
    BucketIs(t, s + 1, 0, e);
    PrefixMonotone(t, e + 1, |f|);
  }

  lemma LastTile(f: seq<nat>, t: seq<nat>, tile: nat, s: nat, e: nat)
    requires Tiled(f, t, tile) && e < |f| && Prefix(t, e) <= s && s + 1 == Prefix(t, e + 1)
    ensures StartOf(f, t, tile, s + 1) == Prefix(f, e) + f[e]
    ensures f[e] <= Offset(s + 1 - Prefix(t, e), tile)
  {
    StartAtExpert(f, t, tile, e + 1);
    assert s + 1 - Prefix(t, e) == t[e];
  }

  lemma ThisTile(f: seq<nat>, t: seq<nat>, tile: nat, s: nat)
    requires Tiled(f, t, tile) && f != [] && s < Prefix(t, |t|)
    ensures var e := ClampedBucket(t, s);
            && Prefix(t, e) <= s < Prefix(t, e + 1)
            && StartOf(f, t, tile, s) == Prefix(f, e) + Offset(s - Prefix(t, e), tile)
            && SegmentAt(f, t, tile, s).rows == Clamp(f[e] - Offset(s - Prefix(t, e), tile), 0, tile)
            && f[e] > Offset(s - Prefix(t, e), tile)
            && Offset(s + 1 - Prefix(t, e), tile) == Offset(s - Prefix(t, e), tile) + tile
  {
    var e := ClampedBucket(t, s);
    assert s - Prefix(t, e) < t[e];
  }

  /** Each live segment ends where the next one starts. */
  lemma NextSegment(f: seq<nat>, t: seq<nat>, tile: nat, s: nat)
    requires Tiled(f, t, tile) && f != [] && s < Prefix(t, |t|)
    ensures StartOf(f, t, tile, s + 1) == StartOf(f, t, tile, s) + SegmentAt(f, t, tile, s).rows
  {
    var e := ClampedBucket(t, s);
    ThisTile(f, t, tile, s);
    if s + 1 < Prefix(t, e + 1) {
      NextTile(f, t, tile, s, e);
    } else {
      LastTile(f, t, tile, s, e);
    }
  }

  function Starts(t: Tables, s: nat): nat
    requires t.numSegs <= |t.segs|
  {
    if s < t.numSegs then t.segs[s].row0 else t.numRows
  }

  /** Segment s holds 1..tile fat rows, all of its own expert, and ends where the next starts. */
  ghost predicate LivesAt(t: Tables, s: nat, tile: nat)
    requires s < t.numSegs <= |t.segs|
  {
    && 1 <= t.segs[s].rows <= tile
    && t.segs[s].row0 + t.segs[s].rows == Starts(t, s + 1)
    && t.segs[s].row0 + t.segs[s].rows <= t.numRows <= |t.fat|
    && forall r :: t.segs[s].row0 <= r < t.segs[s].row0 + t.segs[s].rows ==> t.fat[r].expert == t.segs[s].expert
  }

  /** What the fat kernels rely on: the live segments follow each other without a gap from row 0
      to num_rows, and the segments past them are empty. */
  ghost predicate Partition(t: Tables, tile: nat) {
    && t.numSegs <= |t.segs|
    && t.numRows <= |t.fat|
    && Starts(t, 0) == 0
    && (forall s :: 0 <= s < t.numSegs ==> LivesAt(t, s, tile))
    && (forall s :: t.numSegs <= s < |t.segs| ==> t.segs[s].rows == 0)
  }

  lemma TilesMonotone(a: nat, b: nat, tile: nat)
    requires tile > 0 && a <= b
    ensures a / tile <= CeilDiv(b, tile)
  {
    var x, y := a / tile, CeilDiv(b, tile);
    assert x * tile <= a;
    assert b <= y * tile;
    MulMonotone(y + 1, x, tile);
    assert (y + 1) * tile == y * tile + tile;
  }

  lemma SegmentsFit(c: seq<nat>, cap: nat, rows: seq<Row>, tile: nat)
    requires c != [] && tile > 0 && Prefix(c, |c|) <= |rows|
    ensures var f := FatRows(c, cap);
            && Prefix(TileCounts(f, tile), |c|) <= CeilDiv(|rows|, tile) + |c|
            && Prefix(f, |c|) <= |rows|
  {
    var f := FatRows(c, cap);
    FatBelowAll(c, cap, |c|);
    SegmentBound(f, tile, |c|);
    TilesMonotone(Prefix(f, |c|), |rows|, tile);
  }

  lemma RowsOfSegment(f: seq<nat>, t: seq<nat>, tile: nat, s: nat, r: nat)
    requires Tiled(f, t, tile) && f != [] && s < Prefix(t, |t|)
    requires var g := SegmentAt(f, t, tile, s); g.row0 <= r < g.row0 + g.rows
    ensures r < Prefix(f, |f|) && ClampedBucket(f, r) == SegmentAt(f, t, tile, s).expert
  {
    LiveSegment(f, t, tile, s);
    var e := SegmentAt(f, t, tile, s).expert;
    BucketIs(f, r, 0, e);
    PrefixMonotone(f, e + 1, |f|);
  }

  ghost predicate IsFatRow(c: seq<nat>, f: seq<nat>, rows: seq<Row>, fat: seq<FatRow>, r: nat)
    requires |f| == |c| > 0 && r < |fat| && r < |rows|
  {
    fat[r] == FatRowAt(c, f, rows, r)
  }

  ghost predicate FatTableOf(c: seq<nat>, f: seq<nat>, rows: seq<Row>, fat: seq<FatRow>) {
    && |f| == |c| > 0 && |fat| <= |rows|
    && forall r :: 0 <= r < |fat| ==> IsFatRow(c, f, rows, fat, r)
  }

  ghost predicate IsSegment(f: seq<nat>, t: seq<nat>, tile: nat, b: Tables, s: nat)
    requires |f| == |t| > 0 && s < |b.segs|
  {
    b.segs[s] == SegmentAt(f, t, tile, s)
  }

  ghost predicate TableOf(f: seq<nat>, t: seq<nat>, tile: nat, b: Tables) {
    && |f| == |t| > 0
    && b.numSegs == Prefix(t, |t|) <= |b.segs| && b.numRows == Prefix(f, |f|) <= |b.fat|
    && (forall s :: 0 <= s < |b.segs| ==> IsSegment(f, t, tile, b, s))
    && (forall r :: 0 <= r < |b.fat| ==> b.fat[r].expert == ClampedBucket(f, r))
  }

  lemma LiveSegmentOf(f: seq<nat>, t: seq<nat>, tile: nat, b: Tables, s: nat)
    requires Tiled(f, t, tile) && TableOf(f, t, tile, b) && s < b.numSegs
    ensures LivesAt(b, s, tile)
  {
    var g := b.segs[s];
    assert IsSegment(f, t, tile, b, s);
    LiveSegment(f, t, tile, s);
    NextSegment(f, t, tile, s);
    assert s + 1 < b.numSegs ==> IsSegment(f, t, tile, b, s + 1);
    PrefixMonotone(f, g.expert + 1, |f|);
    forall r | g.row0 <= r < g.row0 + g.rows ensures b.fat[r].expert == g.expert {
      RowsOfSegment(f, t, tile, s, r);
    }
  }

  lemma DeadSegmentOf(f: seq<nat>, t: seq<nat>, tile: nat, b: Tables, s: nat)
    requires Tiled(f, t, tile) && TableOf(f, t, tile, b) && b.numSegs <= s < |b.segs|
    ensures b.segs[s].rows == 0
  {
    assert IsSegment(f, t, tile, b, s);
    DeadSegment(f, t, tile, s);
  }

  lemma FirstSegmentOf(f: seq<nat>, t: seq<nat>, tile: nat, b: Tables)
    requires Tiled(f, t, tile) && TableOf(f, t, tile, b)
    ensures Starts(b, 0) == 0
  {
    assert b.numSegs > 0 ==> IsSegment(f, t, tile, b, 0);
    StartAtExpert(f, t, tile, 0);
  }

  lemma TablesAreTables(c: seq<nat>, f: seq<nat>, t: seq<nat>, rows: seq<Row>, tile: nat, maxSegs: nat)
    requires |c| == |f| == |t| > 0 && Prefix(t, |t|) <= maxSegs && Prefix(f, |f|) <= |rows|
    ensures TableOf(f, t, tile, TablesOf(c, f, t, rows, tile, maxSegs))
    ensures FatTableOf(c, f, rows, TablesOf(c, f, t, rows, tile, maxSegs).fat)
  {
  }

  lemma TablesPartition(c: seq<nat>, cap: nat, rows: seq<Row>, tile: nat)
    requires c != [] && tile > 0 && Prefix(c, |c|) <= |rows|
    ensures Partition(BuildTables(c, cap, rows, tile), tile)
  {
    SegmentsFit(c, cap, rows, tile);
    TilesPartition(c, FatRows(c, cap), TileCounts(FatRows(c, cap), tile), rows, tile, CeilDiv(|rows|, tile) + |c|);
  }

  lemma TilesPartition(c: seq<nat>, f: seq<nat>, t: seq<nat>, rows: seq<Row>, tile: nat, maxSegs: nat)
    requires tile > 0 && |c| == |f| > 0 && t == TileCounts(f, tile)
    requires Prefix(t, |t|) <= maxSegs && Prefix(f, |f|) <= |rows|
    ensures Partition(TablesOf(c, f, t, rows, tile, maxSegs), tile)
  {
    TileCountsTiled(f, tile);
    TablesAreTables(c, f, t, rows, tile, maxSegs);
    PartitionOf(f, t, tile, TablesOf(c, f, t, rows, tile, maxSegs));
  }

  lemma PartitionOf(f: seq<nat>, t: seq<nat>, tile: nat, b: Tables)
    requires Tiled(f, t, tile) && TableOf(f, t, tile, b)
    ensures Partition(b, tile)
  {
    FirstSegmentOf(f, t, tile, b);
    forall s | 0 <= s < b.numSegs ensures LivesAt(b, s, tile) {
      LiveSegmentOf(f, t, tile, b, s);
    }
    forall s | b.numSegs <= s < |b.segs| ensures b.segs[s].rows == 0 {
      DeadSegmentOf(f, t, tile, b, s);
    }
  }

  // ---------------------------------------------------------------------------
  // Rows.

  /** The rows, and what they read, are the same for every tile size; a row's source is in
      bounds whether the row is live or not, and a live row's source needs no clamp. */
  lemma RowTables(c: seq<nat>, cap: nat, rows: seq<Row>, tile: nat, other: nat, r: nat)
    requires c != [] && tile > 0 && other > 0 && Prefix(c, |c|) <= |rows|
    ensures BuildTables(c, cap, rows, tile).fat == BuildTables(c, cap, rows, other).fat
    ensures BuildTables(c, cap, rows, tile).numRows == BuildTables(c, cap, rows, other).numRows
    ensures r < BuildTables(c, cap, rows, tile).numRows ==> SourceOf(c, FatRows(c, cap), r) < |rows|
  {
    SourceInBounds(c, cap, r, |rows|);
  }

  lemma SourceInBounds(c: seq<nat>, cap: nat, r: nat, total: nat)
    requires c != [] && Prefix(c, |c|) <= total
    ensures r < Prefix(FatRows(c, cap), |c|) ==> SourceOf(c, FatRows(c, cap), r) < total
  {
    var f := FatRows(c, cap);
    var e := ClampedBucket(f, r);
    PrefixMonotone(c, e + 1, |c|);
    assert f[e] <= c[e];
  }

  /** How often running each of the first r fat rows' own expert on it makes the add x. */
  function FatTimes(fat: seq<FatRow>, r: nat, x: Add): nat
    requires r <= |fat|
  {
    if r == 0 then 0 else FatTimes(fat, r - 1, x) + if fat[r - 1] == FatRow(x.expert, x.token, x.weight) then 1 else 0
  }

  function FatBelow(c: seq<nat>, cap: nat, n: nat): set<nat>
    requires n <= |c|
  {
    set e: nat | e < n && c[e] > cap
  }

  lemma SourceIs(c: seq<nat>, f: seq<nat>, e: nat, k: nat)
    requires |f| == |c| && e < |c| && k < f[e]
    ensures ClampedBucket(f, Prefix(f, e) + k) == e
    ensures SourceOf(c, f, Prefix(f, e) + k) == Prefix(c, e) + k
  {
    BucketAt(f, e, k);
  }

  lemma FatRowIs(c: seq<nat>, f: seq<nat>, rows: seq<Row>, fat: seq<FatRow>, e: nat, k: nat)
    requires FatTableOf(c, f, rows, fat) && e < |c| && k < f[e] == c[e]
    requires Prefix(c, e) + c[e] <= |rows| && Prefix(f, e) + c[e] <= |fat|
    ensures var row := rows[Prefix(c, e) + k]; fat[Prefix(f, e) + k] == FatRow(e, row.token, row.weight)
  {
    SourceIs(c, f, e, k);
    assert IsFatRow(c, f, rows, fat, Prefix(f, e) + k);
  }

  /** A fat expert's stretch of the fat rows is its slice of the sorted buffer. */
  lemma {:induction false} FatSlice(c: seq<nat>, f: seq<nat>, rows: seq<Row>, fat: seq<FatRow>, e: nat, k: nat, x: Add)
    requires FatTableOf(c, f, rows, fat) && e < |c| && k <= f[e] == c[e]
    requires Prefix(c, e) + c[e] <= |rows| && Prefix(f, e) + c[e] <= |fat|
    ensures FatTimes(fat, Prefix(f, e) + k, x) ==
            FatTimes(fat, Prefix(f, e), x) + if x.expert == e then Times(rows, Prefix(c, e), Prefix(c, e) + k, x) else 0
  {
    if k > 0 {
      FatSlice(c, f, rows, fat, e, k - 1, x);
      FatRowIs(c, f, rows, fat, e, k - 1);
    }
  }

  ghost predicate IsFatCount(c: seq<nat>, f: seq<nat>, cap: nat, e: nat)
    requires |f| == |c| && e < |c|
  {
    f[e] == if c[e] > cap then c[e] else 0
  }

  /** Among the first r fat rows, each route of a fat expert below e is there once. */
  ghost predicate FatTo(fat: seq<FatRow>, r: nat, adds: seq<Add>, c: seq<nat>, cap: nat, e: nat, x: Add)
    requires r <= |fat| && e <= |c|
  {
    FatTimes(fat, r, x) == if x.expert < e && c[x.expert] > cap then multiset(adds)[x] else 0
  }

  lemma {:induction false} FatRowsUpTo(rows: seq<Row>, c: seq<nat>, adds: seq<Add>, f: seq<nat>, cap: nat,
                                       fat: seq<FatRow>, e: nat, x: Add)
    requires Cuts(rows, c, adds) && e <= |c| && FatTableOf(c, f, rows, fat)
    requires forall d :: 0 <= d < |c| ==> IsFatCount(c, f, cap, d)
    requires Prefix(f, e) <= |fat|
    ensures FatTo(fat, Prefix(f, e), adds, c, cap, e, x)
  {
    if e > 0 {
      FatRowsUpTo(rows, c, adds, f, cap, fat, e - 1, x);
      assert IsFatCount(c, f, cap, e - 1) && SliceIs(rows, c, adds, e - 1);
      if c[e - 1] > cap {
        FatSlice(c, f, rows, fat, e - 1, c[e - 1], x);
      }
    }
  }

  /** The live fat rows are the sorted routes of the experts above the cap, each once. */
  lemma FatRowsExact(rows: seq<Row>, c: seq<nat>, adds: seq<Add>, cap: nat, tile: nat, x: Add)
    requires Cuts(rows, c, adds) && c != [] && tile > 0
    ensures var b := BuildTables(c, cap, rows, tile);
            && b.numRows <= |b.fat|
            && FatTimes(b.fat, b.numRows, x) == if x.expert in FatBelow(c, cap, |c|) then multiset(adds)[x] else 0
  {
    var b, f, maxSegs := BuildTables(c, cap, rows, tile), FatRows(c, cap), CeilDiv(|rows|, tile) + |c|;
    SegmentsFit(c, cap, rows, tile);
    TablesAreTables(c, f, TileCounts(f, tile), rows, tile, maxSegs);
    FatRowsUpTo(rows, c, adds, f, cap, b.fat, |c|, x);
  }

  // ---------------------------------------------------------------------------
  // The launches.

  /** A row of h13: the token whose hidden state it holds, and whose input signs it carries. */
  datatype Gathered = Gathered(token: nat, suh: nat)

  /** A row of h2: what it was computed from, and whose gate and up weights were used. */
  datatype Hidden = Hidden(input: Gathered, expert: nat)

  function Gather(t: Tables): (h13: seq<Gathered>)
    requires t.numRows <= |t.fat|
    ensures |h13| == t.numRows
    ensures forall r :: 0 <= r < t.numRows ==> h13[r] == Gathered(t.fat[r].token, t.fat[r].expert)
  {
    seq(t.numRows, r requires 0 <= r < t.numRows => Gathered(t.fat[r].token, t.fat[r].expert))
  }

  /** exl3_fat_moe_gateup: each live block runs its expert on its own rows of h13. */
  method GateUp(t: Tables, tile: nat, h13: seq<Gathered>) returns (h2: seq<Option<Hidden>>)
    requires Partition(t, tile) && |h13| == t.numRows
    ensures |h2| == t.numRows
    ensures forall r :: 0 <= r < t.numRows ==> h2[r] == Some(Hidden(h13[r], t.fat[r].expert))
  {
    h2 := seq(t.numRows, r => None);
    for s := 0 to t.numSegs
      invariant |h2| == t.numRows && Starts(t, s) <= t.numRows
      invariant forall r :: 0 <= r < Starts(t, s) ==> h2[r] == Some(Hidden(h13[r], t.fat[r].expert))
    {
      assert LivesAt(t, s, tile);
      var g := t.segs[s];
      for i := 0 to g.rows
        invariant |h2| == t.numRows
        invariant forall r :: 0 <= r < g.row0 + i ==> h2[r] == Some(Hidden(h13[r], t.fat[r].expert))
      {
        h2 := h2[g.row0 + i := Some(Hidden(h13[g.row0 + i], g.expert))];
      }
    }
  }

  /** The adds of the first r fat rows have been made. */
  ghost predicate DownTo(t: Tables, r: nat, before: Tally, out: Tally) {
    r <= t.numRows <= |t.fat| && forall x: Add :: out(x) == before(x) + FatTimes(t.fat, r, x)
  }

  function One(y: Add): Tally {
    (x: Add) => if x == y then 1 else 0
  }

  function Sum(a: Tally, b: Tally): Tally {
    (x: Add) => a(x) + b(x)
  }

  /** One block of exl3_fat_moe_down runs its expert on its rows of h2 and adds the result,
      times row_weight, to row_token. */
  method DownBlock(t: Tables, s: nat, tile: nat, h2: seq<Option<Hidden>>, soFar: Tally, ghost before: Tally)
    returns (out: Tally)
    requires s < t.numSegs <= |t.segs| && LivesAt(t, s, tile) && |h2| == t.numRows
    requires forall r :: 0 <= r < t.numRows ==>
               h2[r] == Some(Hidden(Gathered(t.fat[r].token, t.fat[r].expert), t.fat[r].expert))
    requires DownTo(t, t.segs[s].row0, before, soFar)
    ensures DownTo(t, Starts(t, s + 1), before, out)
  {
    out := soFar;
    var g := t.segs[s];
    for i := 0 to g.rows
      invariant DownTo(t, g.row0 + i, before, out)
    {
      var r := g.row0 + i;
      assert h2[r] == Some(Hidden(Gathered(t.fat[r].token, g.expert), g.expert));
      out := Sum(out, One(Add(t.fat[r].token, g.expert, t.fat[r].weight)));
    }
  }

  /** exl3_fat_moe_down. The tables may be cut into other tiles than those h2 was written with. */
  method Down(t: Tables, tile: nat, h2: seq<Option<Hidden>>, before: Tally) returns (out: Tally)
    requires Partition(t, tile) && |h2| == t.numRows
    requires forall r :: 0 <= r < t.numRows ==>
               h2[r] == Some(Hidden(Gathered(t.fat[r].token, t.fat[r].expert), t.fat[r].expert))
    ensures DownTo(t, t.numRows, before, out)
  {
    out := before;
    for s := 0 to t.numSegs
      invariant DownTo(t, Starts(t, s), before, out)
    {
      assert LivesAt(t, s, tile);
      out := DownBlock(t, s, tile, h2, out, before);
    }
  }

  /** What GateUp and Down compute together, whatever tiles each of them uses. */
  method Run(tg: Tables, tileGateUp: nat, td: Tables, tileDown: nat, before: Tally) returns (out: Tally)
    requires Partition(tg, tileGateUp) && Partition(td, tileDown)
    requires tg.fat == td.fat && tg.numRows == td.numRows
    ensures DownTo(td, td.numRows, before, out)
  {
    var h13 := Gather(tg);
    var h2 := GateUp(tg, tileGateUp, h13);
    out := Down(td, tileDown, h2, before);
  }

  lemma DownToIsAdded(t: Tables, before: Tally, out: Tally, rows: seq<Row>, c: seq<nat>, adds: seq<Add>, cap: nat,
                      tile: nat)
    requires Cuts(rows, c, adds) && c != [] && tile > 0 && t == BuildTables(c, cap, rows, tile)
    requires DownTo(t, t.numRows, before, out)
    ensures Added(before, out, adds, FatBelow(c, cap, |c|))
  {
    forall x: Add ensures out(x) == before(x) + if x.expert in FatBelow(c, cap, |c|) then multiset(adds)[x] else 0 {
      FatRowsExact(rows, c, adds, cap, tile, x);
    }
  }

  /** apply_exl3_grouped_fat: every expert above the cap, whichever tiles the two kernels use. */
  method GroupedFat(c: seq<nat>, cap: nat, rows: seq<Row>, tileGateUp: nat, tileDown: nat, before: Tally,
                    ghost adds: seq<Add>)
    returns (out: Tally)
    requires Cuts(rows, c, adds) && c != [] && tileGateUp > 0 && tileDown > 0
    ensures Added(before, out, adds, FatBelow(c, cap, |c|))
  {
    TablesPartition(c, cap, rows, tileGateUp);
    TablesPartition(c, cap, rows, tileDown);
    RowTables(c, cap, rows, tileGateUp, tileDown, 0);
    var tg := BuildTables(c, cap, rows, tileGateUp);
    var td := if tileDown == tileGateUp then tg else BuildTables(c, cap, rows, tileDown);
    out := Run(tg, tileGateUp, td, tileDown, before);
    DownToIsAdded(td, before, out, rows, c, adds, cap, tileDown);
  }
}

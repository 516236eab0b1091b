/** One rank's row store (Store, fetch_row, serve and row_store_open / range /
    attach_packed in overlay/row_store.cpp): whichever of the three physical paths and
    whatever the cache holds, a lookup returns weight(id) ++ scale(id) for an owned id and
    zeros for any other.

    The methods are the code of one thread. What concurrent threads do to the cache
    between the locked sections is the subject of RowCache.ConcurrentLookups. */
module RowStore {
  import opened Arithmetic
  import opened Bytes
  import opened RowFiles
  import opened PackedShard
  import opened Wrappers
  import C = RowCache

  function Zeros(n: nat): (z: seq<byte>)
    ensures |z| == n
  {
    seq(n, _ => 0)
  }

  predicate InFile(file: seq<byte>, t: Span) {
    && t.weightOffset + t.rows * WEIGHT_BYTES <= |file|
    && t.scaleOffset + t.rows * SCALE_BYTES <= |file|
  }

  /** The specification of a lookup: the output row for id. */
  function Answer(file: seq<byte>, t: Span, lo: nat, hi: nat, id: int): (r: seq<byte>)
    requires InFile(file, t) && hi <= t.rows
    ensures |r| == ROW_BYTES
  {
    if lo <= id < hi then TableRow(file, t, id) else Zeros(ROW_BYTES)
  }

  /** How many of ids[begin..end) are owned, that is, how many rows serve() fetches. */
  function Owned(ids: seq<int>, lo: nat, hi: nat, begin: nat, end: nat): nat
    requires begin <= end <= |ids|
    decreases end - begin
  {
    if begin == end then 0 else Owned(ids, lo, hi, begin, end - 1) + if lo <= ids[end - 1] < hi then 1 else 0
  }

  lemma OwnedStep(ids: seq<int>, lo: nat, hi: nat, begin: nat, i: nat)
    requires begin <= i < |ids|
    ensures Owned(ids, lo, hi, begin, i + 1) == Owned(ids, lo, hi, begin, i) + if lo <= ids[i] < hi then 1 else 0
  {
  }

  /** fetch_row's miss path on a packed shard reads record id - row_lo. */
  lemma PackedRead(shard: seq<byte>, file: seq<byte>, t: Span, first: nat, n: nat, k: nat)
    requires |shard| >= HEADER_BYTES && Records(shard[HEADER_BYTES..], file, t, first, n) && k < n
    ensures HEADER_BYTES + k * ROW_BYTES + ROW_BYTES <= |shard|
    ensures HasRow(file, t, first + k)
    ensures shard[HEADER_BYTES + k * ROW_BYTES..HEADER_BYTES + k * ROW_BYTES + ROW_BYTES]
              == TableRow(file, t, first + k)
  {
    assert RecordIs(shard[HEADER_BYTES..], file, t, first, k);
    assert shard[HEADER_BYTES..|shard|] == shard[HEADER_BYTES..];
    SliceOfSlice(shard, HEADER_BYTES, |shard|, k * ROW_BYTES, k * ROW_BYTES + ROW_BYTES);
  }

  /** A shard that holds rows [lo, hi) of the table. */
  ghost predicate Holds(shard: seq<byte>, file: seq<byte>, t: Span, lo: nat, hi: nat) {
    lo <= hi && |shard| >= HEADER_BYTES && Records(shard[HEADER_BYTES..], file, t, lo, hi - lo)
  }

  /** The file reaches to the end of id's record, the records starting at row lo. */
  predicate RecordOf(shard: seq<byte>, lo: nat, id: nat)
    requires lo <= id
  {
    HEADER_BYTES + (id - lo) * ROW_BYTES + ROW_BYTES <= |shard|
  }

  /** The packed read of id by a store whose range starts at lo' is complete and is id's row. */
  ghost predicate RightAt(shard: seq<byte>, file: seq<byte>, t: Span, lo': nat, id: nat)
    requires lo' <= id
  {
    var at := HEADER_BYTES + (id - lo') * ROW_BYTES;
    at + ROW_BYTES <= |shard| && HasRow(file, t, id) && shard[at..at + ROW_BYTES] == TableRow(file, t, id)
  }

  /** A packed read after the range moved returns the row that lies as far from the one asked for
      as the start of the range moved. */
  lemma PackedReadAfterRangeMoved(shard: seq<byte>, file: seq<byte>, t: Span, lo: nat, hi: nat, lo': nat, id: nat)
    requires Holds(shard, file, t, lo, hi)
    requires lo' <= id && id - lo' < hi - lo
    ensures var at := HEADER_BYTES + (id - lo') * ROW_BYTES;
            at + ROW_BYTES <= |shard| && HasRow(file, t, lo + id - lo')
            && shard[at..at + ROW_BYTES] == TableRow(file, t, lo + id - lo')
  {
    PackedRead(shard, file, t, lo, hi - lo, id - lo');
  }

  /** Whatever the table holds: with a shard attached for [lo, hi) and the range now [lo', hi'),
      every packed read of an owned id that does not run past the shard is the id's own row. */
  ghost predicate MovedReadsRight(t: Span, lo: nat, hi: nat, lo': nat, hi': nat) {
    forall file: seq<byte>, shard: seq<byte>, id: nat ::
      InFile(file, t) && Holds(shard, file, t, lo, hi) && lo' <= id < hi' && id - lo' < hi - lo ==>
        RightAt(shard, file, t, lo', id)
  }

  /** That is so exactly when the start of the range did not move, or nothing is owned. */
  lemma MovedReadsRightIff(t: Span, lo: nat, hi: nat, lo': nat, hi': nat)
    requires lo < hi <= t.rows && lo' <= hi' <= t.rows
    ensures MovedReadsRight(t, lo, hi, lo', hi') <==> lo' == lo || lo' == hi'
  {
    if lo' == lo {
      forall file: seq<byte>, shard: seq<byte>, id: nat
        | InFile(file, t) && Holds(shard, file, t, lo, hi) && lo' <= id < hi' && id - lo' < hi - lo
        ensures RightAt(shard, file, t, lo', id)
      {
        PackedReadAfterRangeMoved(shard, file, t, lo, hi, lo', id);
      }
    } else if lo' < hi' {
      var file, shard := MovedReadWrong(t, lo, hi, lo');
      assert !RightAt(shard, file, t, lo', lo');
    }
  }

  /** Zeros but for one byte. */
  function Marked(size: nat, at: nat): (file: seq<byte>)
    ensures |file| == size && forall i :: 0 <= i < size ==> file[i] == if i == at then 1 else 0
  {
    seq(size, i => if i == at then 1 else 0)
  }

  /** A table whose rows differ wherever the start of the range moves to. */
  lemma MovedReadWrong(t: Span, lo: nat, hi: nat, lo': nat) returns (file: seq<byte>, shard: seq<byte>)
    requires lo < hi <= t.rows && lo' < t.rows && lo' != lo
    ensures InFile(file, t) && Holds(shard, file, t, lo, hi) && !RightAt(shard, file, t, lo', lo')
  {
    file := Marked(t.weightOffset + t.scaleOffset + t.rows * ROW_BYTES, t.weightOffset + lo' * WEIGHT_BYTES);
    shard := Written(file, t, 0, lo, hi);
    WrittenRecords(file, t, 0, lo, hi);
    PackedReadAfterRangeMoved(shard, file, t, lo, hi, lo', lo');
    assert TableRow(file, t, lo')[0] == 1;
    assert TableRow(file, t, lo)[0] == 0;
  }

  /** The packed read of id does not run past a shard of hi - lo rows. */
  predicate Inside(lo: nat, hi: nat, lo': nat, id: nat)
    requires lo <= hi && lo' <= id
  {
    HEADER_BYTES + (id - lo') * ROW_BYTES + ROW_BYTES <= HEADER_BYTES + (hi - lo) * ROW_BYTES
  }

  /** Every read lies inside the shard exactly when the range did not grow; with the start where it
      was, when its end did not rise. */
  lemma MovedReadsInsideIff(lo: nat, hi: nat, lo': nat, hi': nat)
    requires lo <= hi && lo' <= hi'
    ensures (forall id :: lo' <= id < hi' ==> Inside(lo, hi, lo', id)) <==> hi' - lo' <= hi - lo
    ensures lo' == lo ==> ((forall id :: lo' <= id < hi' ==> Inside(lo, hi, lo', id)) <==> hi' <= hi)
  {
    if hi' - lo' > hi - lo {
      assert !Inside(lo, hi, lo', lo' + (hi - lo));
    }
  }

  /** Labelled slots hold whole rows. */
  ghost predicate FullRows(c: C.Contents<seq<byte>>) {
    C.Shaped(c) && forall k :: 0 <= k < |c.keys| && c.keys[k] != 0 ==> |c.rows[k]| == ROW_BYTES
  }

  lemma InsertFullRow(c: C.Contents<seq<byte>>, id: nat, row: seq<byte>)
    requires FullRows(c) && |row| == ROW_BYTES
    ensures FullRows(C.Insert(c, id, row))
  {
  }

  class Store {
    const file: seq<byte>
    const table: Span
    const resident: bool
    const sets: nat
    const ways: nat
    var rowLo: nat
    var rowHi: nat
    var scales: Result<seq<byte>>         // pinned scale rows [rowLo, rowHi)
    var packed: Result<seq<byte>>         // attached shard
    ghost var packedLo: nat               // the range the shard was attached for
    ghost var packedHi: nat
    const keys: array<nat>
    const cache: array<seq<byte>>
    const victim: array<nat>
    var hits: nat
    var misses: nat

    /** Every row as a function of its id: what a cache slot's label promises. */
    ghost function Row(): nat -> seq<byte> {
      (id: nat) => if id < table.rows && HasRow(file, table, id) then TableRow(file, table, id) else []
    }

    ghost function Contents(): C.Contents<seq<byte>>
      reads keys, cache, victim
    {
      C.Contents(sets, ways, keys[..], cache[..], victim[..])
    }

    ghost predicate ScalesOf(bytes: seq<byte>)
      requires InFile(file, table) && rowLo <= rowHi <= table.rows
      reads this
    {
      bytes == file[table.scaleOffset + rowLo * SCALE_BYTES..table.scaleOffset + rowHi * SCALE_BYTES]
    }

    /** The store's own invariant, whatever its shard holds and wherever its range has moved. */
    ghost predicate Valid()
      reads this, keys, cache, victim
    {
      && InFile(file, table)
      && rowLo <= rowHi <= table.rows
      && keys != victim
      && (sets > 0 ==> FullRows(Contents()))
      && (scales.Ok? ==> ScalesOf(scales.value))
    }

    /** The shard holds this table's rows, from the start of the owned range on, unless nothing is
        owned. MovedReadsRightIff says that no less will do. row_store_range does not see to it. */
    ghost predicate InPlace()
      reads this`rowLo, this`rowHi, this`packed, this`packedLo, this`packedHi
    {
      packed.Ok? ==> Holds(packed.value, file, table, packedLo, packedHi) && (rowLo == packedLo || rowLo == rowHi)
    }

    ghost predicate TrueCache()
      reads keys, cache, victim
    {
      sets > 0 ==> C.Labelled(Contents(), Row())
    }

    /** Every answer of the store is the specified one. */
    ghost predicate Truthful()
      reads this, keys, cache, victim
    {
      Valid() && InPlace() && TrueCache()
    }

    /** row_store_open on a table whose extents fit the file (it aborts otherwise). */
    constructor Open(file: seq<byte>, table: Span, budget: nat, ways: nat, resident: bool)
      requires InFile(file, table)
      ensures Truthful() && this.file == file && this.table == table && this.resident == resident
      ensures rowLo == 0 && rowHi == table.rows && scales.Failed? && packed.Failed? && hits == misses == 0
      ensures this.ways == Max(1, Min(16, ways)) && sets == C.SetsFor(if resident then 0 else budget, this.ways)
      ensures fresh(keys) && fresh(cache) && fresh(victim)
    {
      this.file, this.table, this.resident := file, table, resident;
      var w := Max(1, Min(16, ways));
      var s := C.SetsFor(if resident then 0 else budget, w);
      this.ways, this.sets := w, s;
      rowLo, rowHi, scales, packed := 0, table.rows, Failed, Failed;
      packedLo, packedHi := 0, 0;
      hits, misses := 0, 0;
      keys := new nat[s * w](_ => 0);
      cache := new seq<byte>[s * w](_ => []);
      victim := new nat[s](_ => 0);
    }

    /** row_store_range; answers(o) is how much the kernel delivers at offset o while pinning.
        Moving the range under pinned scales is refused (the code aborts); moving it under an
        attached shard is not. */
    method Range(lo: nat, hi: nat, pinEnabled: bool, answers: nat -> int) returns (ok: bool)
      requires Valid()
      modifies this`rowLo, this`rowHi, this`scales
      ensures ok <==> lo <= hi <= table.rows && (old(scales).Ok? ==> lo == old(rowLo) && hi == old(rowHi))
      ensures Valid()
      ensures ok ==> rowLo == lo && rowHi == hi
      ensures old(scales).Ok? || !pinEnabled ==> scales == old(scales)
      ensures ok && pinEnabled && lo < hi && (resident || forall o: nat :: answers(o) > 0) ==> scales.Ok?
      ensures ok && old(Truthful()) ==> (Truthful() <==> packed.Failed? || lo == packedLo || lo == hi)
      ensures !ok ==> rowLo == old(rowLo) && rowHi == old(rowHi) && scales == old(scales)
    {
      if lo > hi || hi > table.rows || (scales.Ok? && (lo != rowLo || hi != rowHi)) {
        return false;
      }
      rowLo, rowHi := lo, hi;
      if scales.Failed? && hi > lo && pinEnabled {
        scales := PinScales(file, resident, table.scaleOffset, lo, hi, answers);
      }
      ok := true;
    }

    /** pack_layer wrote the shard from this table's bytes for some layer, range and table size. */
    ghost predicate WrittenFrom(shard: seq<byte>, t: Span, layer': nat, lo': nat, hi': nat) {
      && IsShard(shard, file, t, layer', lo', hi')
      && t.weightOffset == table.weightOffset && t.scaleOffset == table.scaleOffset
    }

    /** The verdict on any shard that could be opened when the header's pread delivers `answer`
        bytes: an unreadable header or a file too short for the range stops the process, a header
        that does not begin with this store's six words is ignored. */
    ghost predicate IsVerdict(shard: seq<byte>, layer: nat, answer: int, v: Verdict)
      requires rowLo <= rowHi
      reads this
    {
      v == if |shard| < HEADER_BYTES || answer < HEADER_BYTES then Fatal
           else if shard[..48] != HeaderStart(layer, rowLo, rowHi, table.rows) then Ignored
           else if |shard| < HEADER_BYTES + (rowHi - rowLo) * ROW_BYTES then Fatal
           else Attached
    }

    /** The checks of row_store_attach_packed. */
    method CheckPacked(shard: seq<byte>, layer: nat, answer: int, ghost t: Span, ghost layer': nat, ghost lo': nat,
                       ghost hi': nat)
      returns (v: Verdict)
      requires rowLo <= rowHi <= table.rows < WORD && layer < WORD
      ensures IsVerdict(shard, layer, answer, v)
      ensures WrittenFrom(shard, t, layer', lo', hi') ==>
                v == if answer < HEADER_BYTES then Fatal
                     else if (layer, rowLo, rowHi, table.rows) == (layer', lo', hi', t.rows) then Attached else Ignored
    {
      var got, header := Pread(shard, 0, PAGE, answer);
      v := Attach(got, header, |shard|, layer, rowLo, rowHi, table.rows);
      AttachIs(shard, got, header, layer, rowLo, rowHi, table.rows);
      if WrittenFrom(shard, t, layer', lo', hi') {
        WrittenShardAccepted(shard, file, t, layer', lo', hi', got, header, layer, rowLo, rowHi, table.rows);
      }
    }

    lemma WrittenHolds(shard: seq<byte>, t: Span, layer': nat, lo': nat, hi': nat)
      requires WrittenFrom(shard, t, layer', lo', hi')
      ensures Holds(shard, file, table, lo', hi')
    {
      forall k | 0 <= k < hi' - lo' ensures RecordIs(shard[HEADER_BYTES..], file, table, lo', k) {
        assert RecordIs(shard[HEADER_BYTES..], file, t, lo', k);
      }
    }

    /** row_store_attach_packed, on 64-bit numbers. A shard that is attached has room for every
        record that a packed read of an owned id asks for, and one that pack_layer wrote is
        attached only in place. */
    method AttachPacked(shard: seq<byte>, layer: nat, answer: int, ghost t: Span, ghost layer': nat, ghost lo': nat,
                        ghost hi': nat)
      returns (v: Verdict)
      requires Valid() && layer < WORD && table.rows < WORD
      modifies this`packed, this`packedLo, this`packedHi
      ensures Valid() && IsVerdict(shard, layer, answer, v)
      ensures v.Attached? ==>
                forall id: nat :: rowLo <= id < rowHi ==> RecordOf(shard, rowLo, id)
      ensures WrittenFrom(shard, t, layer', lo', hi') ==>
                v == if answer < HEADER_BYTES then Fatal
                     else if (layer, rowLo, rowHi, table.rows) == (layer', lo', hi', t.rows) then Attached else Ignored
      ensures packed == if v.Attached? then Ok(shard) else old(packed)
      ensures (packedLo, packedHi) == if v.Attached? then (rowLo, rowHi) else (old(packedLo), old(packedHi))
      ensures old(InPlace()) && WrittenFrom(shard, t, layer', lo', hi') ==> InPlace()
    {
      v := CheckPacked(shard, layer, answer, t, layer', lo', hi');
      if v.Attached? {
        packed, packedLo, packedHi := Ok(shard), rowLo, rowHi;
        if WrittenFrom(shard, t, layer', lo', hi') {
          WrittenHolds(shard, t, layer', lo', hi');
        }
      }
    }

    /** The locked probe of fetch_row. */
    method Probe(id: nat) returns (found: Option<seq<byte>>)
      requires sets > 0 && C.Shaped(Contents())
      modifies this`hits
      ensures found == C.Find(Contents(), id)
      ensures hits == old(hits) + if found.Some? then 1 else 0
    {
      var base := id % sets * ways;
      var w := 0;
      while w < ways
        invariant w <= ways && hits == old(hits)
        invariant C.Find(Contents(), id) == C.FindFrom(Contents(), id, w)
      {
        C.SlotInRange(sets, ways, id % sets, w);
        if keys[base + w] == id + 1 {
          hits := hits + 1;
          return Some(cache[base + w]);
        }
        w := w + 1;
      }
      found := None;
    }

    /** The locked insertion of fetch_row. */
    method Fill(id: nat, row: seq<byte>)
      requires sets > 0 && C.Shaped(Contents()) && keys != victim
      modifies keys, cache, victim
      ensures Contents() == C.Insert(old(Contents()), id, row)
    {
      var s := id % sets;
      var w := victim[s] % ways;
      C.SlotInRange(sets, ways, s, w);
      victim[s] := (victim[s] + 1) % ways;
      cache[s * ways + w] := row;
      keys[s * ways + w] := id + 1;
    }

    /** The insertion keeps the store's invariant, and of a true row the truth of the cache. */
    method Keep(id: nat, row: seq<byte>)
      requires Valid() && sets > 0 && |row| == ROW_BYTES
      modifies keys, cache, victim
      ensures Valid() && Contents() == C.Insert(old(Contents()), id, row)
      ensures old(TrueCache()) && id < table.rows && IsRow(id, row) ==> TrueCache()
    {
      InsertFullRow(Contents(), id, row);
      if TrueCache() && id < table.rows && IsRow(id, row) {
        C.InsertKeepsLabels(Contents(), Row(), id);
      }
      Fill(id, row);
    }

    ghost predicate IsRow(id: nat, row: seq<byte>) {
      HasRow(file, table, id) && row == TableRow(file, table, id)
    }

    /** The read of id's row is completed when the kernel delivers `first` and then `second` bytes:
        one read of a packed record, or one of weights and, unless they are pinned, one of
        scales. */
    ghost predicate Completes(id: nat, first: int, second: int)
      requires rowLo <= id
      reads this`rowLo, this`packed, this`scales
    {
      if packed.Ok? then Arrives(|packed.value|, HEADER_BYTES + (id - rowLo) * ROW_BYTES, ROW_BYTES, first)
      else
        resident || (Arrives(|file|, table.weightOffset + id * WEIGHT_BYTES, WEIGHT_BYTES, first)
                     && (scales.Ok? || Arrives(|file|, table.scaleOffset + id * SCALE_BYTES, SCALE_BYTES, second)))
    }

    /** The store has a cache, and id's row is in it. */
    ghost predicate Cached(id: nat)
      requires sets > 0 ==> C.Shaped(Contents())
      reads keys, cache, victim
    {
      sets > 0 && C.Find(Contents(), id).Some?
    }

    /** What a completed read of id gives: the record at its place in the shard, or the row. */
    ghost predicate Reads(id: nat, row: seq<byte>)
      requires rowLo <= id
      reads this`rowLo, this`packed
    {
      if packed.Ok? then
        var at := HEADER_BYTES + (id - rowLo) * ROW_BYTES;
        at + ROW_BYTES <= |packed.value| && row == packed.value[at..at + ROW_BYTES]
      else HasRow(file, table, id) && row == TableRow(file, table, id)
    }

    /** With the shard in place, that is the row. */
    lemma ReadsRow(id: nat, row: seq<byte>)
      requires InPlace() && rowLo <= id < rowHi && Reads(id, row)
      ensures IsRow(id, row)
    {
      if packed.Ok? {
        PackedReadAfterRangeMoved(packed.value, file, table, packedLo, packedHi, rowLo, id);
      }
    }

    /** The read between the locks: one packed record, or weights and then pinned or read
        scales. */
    method ReadRow(id: nat, first: int, second: int) returns (r: Result<seq<byte>>)
      requires Valid() && rowLo <= id < rowHi
      ensures r.Ok? <==> Completes(id, first, second)
      ensures r.Ok? ==> |r.value| == ROW_BYTES && Reads(id, r.value)
      ensures r.Ok? && InPlace() ==> IsRow(id, r.value)
    {
      if packed.Ok? {
        r := ReadFrom(packed.value, false, HEADER_BYTES + (id - rowLo) * ROW_BYTES, ROW_BYTES, first);
        if r.Ok? && InPlace() {
          ReadsRow(id, r.value);
        }
        return;
      }
      var weight := ReadFrom(file, resident, table.weightOffset + id * WEIGHT_BYTES, WEIGHT_BYTES, first);
      if weight.Failed? {
        return Failed;
      }
      var scale: Result<seq<byte>>;
      if scales.Ok? {
        var at := (id - rowLo) * SCALE_BYTES;
        SliceOfSlice(file, table.scaleOffset + rowLo * SCALE_BYTES, table.scaleOffset + rowHi * SCALE_BYTES,
                     at, at + SCALE_BYTES);
        scale := Ok(scales.value[at..at + SCALE_BYTES]);
      } else {
        scale := ReadFrom(file, resident, table.scaleOffset + id * SCALE_BYTES, SCALE_BYTES, second);
      }
      if scale.Failed? {
        return Failed;
      }
      r := Ok(weight.value + scale.value);
    }

    /** The rest of fetch_row after a probe that found nothing: read, count the miss, insert. */
    method FetchMissed(id: nat, first: int, second: int) returns (r: Result<seq<byte>>)
      requires Valid() && rowLo <= id < rowHi
      modifies this`misses, keys, cache, victim
      ensures Valid()
      ensures r.Ok? ==> |r.value| == ROW_BYTES && Reads(id, r.value)
      ensures r.Ok? ==> misses == old(misses) + 1
      ensures r.Ok? && sets > 0 ==> Contents() == C.Insert(old(Contents()), id, r.value)
      ensures old(Truthful()) ==> Truthful() && (r.Ok? ==> IsRow(id, r.value))
      ensures r.Ok? <==> Completes(id, first, second)
    {
      r := ReadRow(id, first, second);
      if r.Failed? {
        return;
      }
      misses := misses + 1;
      if sets > 0 {
        Keep(id, r.value);
      }
    }

    /** fetch_row. A hit changes only hits; a miss counts itself and inserts the row. In a truthful
        store the row is the true one and the store stays truthful. */
    method FetchRow(id: nat, first: int, second: int) returns (r: Result<seq<byte>>)
      requires Valid() && rowLo <= id < rowHi
      modifies this`hits, this`misses, keys, cache, victim
      ensures Valid()
      ensures r.Ok? ==> |r.value| == ROW_BYTES
      ensures r.Ok? && !old(Cached(id)) ==> Reads(id, r.value)
      ensures r.Ok? && old(Cached(id)) ==> Some(r.value) == C.Find(old(Contents()), id)
      ensures r.Ok? ==> hits == old(hits) + if old(Cached(id)) then 1 else 0
      ensures r.Ok? ==> misses == old(misses) + if old(Cached(id)) then 0 else 1
      ensures r.Ok? && sets > 0 ==> Contents() == C.AfterLookup(old(Contents()), id, r.value)
      ensures old(Truthful()) ==> Truthful() && (r.Ok? ==> IsRow(id, r.value))
      ensures r.Ok? <==> old(Cached(id)) || Completes(id, first, second)
    {
      if sets > 0 {
        var found := Probe(id);
        if found.Some? {
          C.FoundInSlot(Contents(), id, 0);
          if Truthful() {
            C.FoundIsTrue(Contents(), Row(), id, 0);
            assert HasRow(file, table, id);
          }
          return Ok(found.value);
        }
      }
      r := FetchMissed(id, first, second);
    }

    ghost predicate IsAnswer(id: int, weight: seq<byte>, scale: seq<byte>)
      requires InFile(file, table) && rowHi <= table.rows
      reads this`rowLo, this`rowHi
    {
      && |weight| == WEIGHT_BYTES && |scale| == SCALE_BYTES
      && weight + scale == Answer(file, table, rowLo, rowHi, id)
    }

    /** One iteration of serve: the id's weight and scale bytes. */
    method ServeOne(id: int, first: int, second: int) returns (ok: bool, weight: seq<byte>, scale: seq<byte>)
      requires Valid()
      modifies this`hits, this`misses, keys, cache, victim
      ensures Valid()
      ensures ok ==> id < table.rows && |weight| == WEIGHT_BYTES && |scale| == SCALE_BYTES
      ensures ok && !(rowLo <= id < rowHi) ==> weight + scale == Zeros(ROW_BYTES)
      ensures old(Truthful()) ==> Truthful() && (ok ==> IsAnswer(id, weight, scale))
      ensures ok <==> id < table.rows && (rowLo <= id < rowHi ==> old(Cached(id)) || Completes(id, first, second))
      ensures ok ==> hits + misses == old(hits) + old(misses) + if rowLo <= id < rowHi then 1 else 0
    {
      ok, weight, scale := true, Zeros(WEIGHT_BYTES), Zeros(SCALE_BYTES);
      if id < 0 {
        assert weight + scale == Zeros(ROW_BYTES);
        return;
      }
      if id >= table.rows {
        return false, [], [];
      }
      if id < rowLo || id >= rowHi {
        assert weight + scale == Zeros(ROW_BYTES);
        return;
      }
      var row := FetchRow(id, first, second);
      if row.Failed? {
        return false, [], [];
      }
      weight, scale := row.value[..WEIGHT_BYTES], row.value[WEIGHT_BYTES..];
      assert weight + scale == row.value;
    }

    /** Serving the id does not abort even if the cache does not help. */
    ghost predicate Served(id: int, answer: (int, int))
      reads this`rowLo, this`rowHi, this`packed, this`scales
    {
      id < table.rows && (rowLo <= id < rowHi ==> Completes(id, answer.0, answer.1))
    }

    /** Output rows [begin, end) hold their ids' answers. */
    ghost predicate Answered(ids: seq<int>, weights: array<seq<byte>>, outScales: array<seq<byte>>, begin: nat,
                             end: nat)
      requires InFile(file, table) && rowHi <= table.rows
      requires begin <= end <= |ids| == weights.Length == outScales.Length
      reads this, weights, outScales
    {
      forall i :: begin <= i < end ==> ids[i] < table.rows && IsAnswer(ids[i], weights[i], outScales[i])
    }

    /** One output row written. */
    method ServeRow(id: int, answer: (int, int), weights: array<seq<byte>>, outScales: array<seq<byte>>, i: nat)
      returns (ok: bool)
      requires Valid() && i < weights.Length == outScales.Length
      requires weights != outScales && weights != cache && outScales != cache
      modifies this`hits, this`misses, keys, cache, victim, weights, outScales
      ensures Valid()
      ensures old(Truthful()) ==> Truthful() && (ok ==> IsAnswer(id, weights[i], outScales[i]))
      ensures forall k :: 0 <= k < weights.Length && (k != i || !ok) ==>
                weights[k] == old(weights[k]) && outScales[k] == old(outScales[k])
      ensures ok ==> id < table.rows
      ensures ok ==> hits + misses == old(hits) + old(misses) + if rowLo <= id < rowHi then 1 else 0
      ensures Served(id, answer) ==> ok
    {
      var weight, scale;
      ok, weight, scale := ServeOne(id, answer.0, answer.1);
      if ok {
        weights[i], outScales[i] := weight, scale;
      }
    }

    /** serve over rows [begin, end) of a work item. On success exactly those output rows are
        written and each owned row is counted once, and each row of a truthful store holds its
        id's answer; an id past the table aborts, and so does a read that is not completed
        (answers[i] is what the kernel delivers for row i). */
    method Serve(ids: seq<int>, answers: seq<(int, int)>, weights: array<seq<byte>>, outScales: array<seq<byte>>,
                 begin: nat, end: nat)
      returns (ok: bool)
      requires Valid() && begin <= end <= |ids| == |answers| == weights.Length == outScales.Length
      requires weights != outScales && weights != cache && outScales != cache
      modifies this`hits, this`misses, keys, cache, victim, weights, outScales
      ensures Valid()
      ensures old(Truthful()) ==> Truthful() && (ok ==> Answered(ids, weights, outScales, begin, end))
      ensures forall k :: 0 <= k < |ids| && !(begin <= k < end) ==>
                weights[k] == old(weights[k]) && outScales[k] == old(outScales[k])
      ensures ok ==> hits + misses == old(hits) + old(misses) + Owned(ids, rowLo, rowHi, begin, end)
      ensures ok ==> forall i :: begin <= i < end ==> ids[i] < table.rows
      ensures (forall i :: begin <= i < end ==> Served(ids[i], answers[i])) ==> ok
    {
      var i := begin;
      ghost var truthful := Truthful();
      while i < end
        invariant begin <= i <= end && Valid()
        invariant truthful ==> Truthful() && Answered(ids, weights, outScales, begin, i)
        invariant forall k :: 0 <= k < |ids| && !(begin <= k < end) ==>
                    weights[k] == old(weights[k]) && outScales[k] == old(outScales[k])
        invariant hits + misses == old(hits) + old(misses) + Owned(ids, rowLo, rowHi, begin, i)
        invariant forall k :: begin <= k < i ==> ids[k] < table.rows
      {
        OwnedStep(ids, rowLo, rowHi, begin, i);
        var served := ServeRow(ids[i], answers[i], weights, outScales, i);
        if !served {
          return false;
        }
        i := i + 1;
      }
      ok := true;
    }
  }

  // ---------------------------------------------------------------------------
  // A range moved under an attached shard.

  /** Two rows, of which the first is not all zeros. */
  const TWO_ROWS: Span := Span(2, 0, 512)

  function TwoRowFile(): (file: seq<byte>)
    ensures InFile(file, TWO_ROWS)
  {
    Marked(528, 0)
  }

  /** The shard of row 0 alone, and what it gives for row 1. */
  lemma FirstRowShard(shard: seq<byte>)
    requires shard == Written(TwoRowFile(), TWO_ROWS, 0, 0, 1)
    ensures IsShard(shard, TwoRowFile(), TWO_ROWS, 0, 0, 1) && HasRow(TwoRowFile(), TWO_ROWS, 1)
    ensures HEADER_BYTES + ROW_BYTES <= |shard|
    ensures shard[HEADER_BYTES..HEADER_BYTES + ROW_BYTES] != TableRow(TwoRowFile(), TWO_ROWS, 1)
  {
    WrittenIsShard(TwoRowFile(), TWO_ROWS, 0, 0, 1);
    PackedReadAfterRangeMoved(shard, TwoRowFile(), TWO_ROWS, 0, 1, 1, 1);
    assert TableRow(TwoRowFile(), TWO_ROWS, 0)[0] == 1;
    assert TableRow(TwoRowFile(), TWO_ROWS, 1)[0] == 0;
  }

  /** Own row 1 instead of row 0 and fetch it, with full reads. */
  method MoveAndFetch(store: Store) returns (moved: bool, r: Result<seq<byte>>)
    requires store.Valid() && store.file == TwoRowFile() && store.table == TWO_ROWS && store.sets == 0
    requires store.scales.Failed? && store.packed == Ok(Written(TwoRowFile(), TWO_ROWS, 0, 0, 1))
    modifies store, store.keys, store.cache, store.victim
    ensures moved && r.Ok? && HasRow(TwoRowFile(), TWO_ROWS, 1)
    ensures r.value != TableRow(TwoRowFile(), TWO_ROWS, 1)
  {
    FirstRowShard(store.packed.value);
    moved := store.Range(1, 2, false, _ => 0);
    r := store.FetchRow(1, BUFFER, BUFFER);
  }

  /** Open, own row 0, attach its shard, own row 1 instead: every step is accepted, and the fetch of
      row 1 returns row 0. */
  method MovedRangeExample() returns (v: Verdict, moved: bool, r: Result<seq<byte>>)
    ensures v.Attached? && moved && r.Ok?
    ensures HasRow(TwoRowFile(), TWO_ROWS, 1) && r.value != TableRow(TwoRowFile(), TWO_ROWS, 1)
  {
    var store := new Store.Open(TwoRowFile(), TWO_ROWS, 0, 1, false);
    var owned := store.Range(0, 1, false, _ => 0);
    var shard := Written(TwoRowFile(), TWO_ROWS, 0, 0, 1);
    FirstRowShard(shard);
    v := store.AttachPacked(shard, 0, BUFFER, TWO_ROWS, 0, 0, 1);
    moved, r := MoveAndFetch(store);
  }
}

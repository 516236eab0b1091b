/** The repacked shard: how scripts/pack_engram.py writes it and how row_store_attach_packed
    decides to use it. */
module PackedShard {
  import opened Arithmetic
  import opened Bytes
  import opened RowFiles

  const HEADER_BYTES: nat := 4096
  const MAGIC: nat := 0x31344E4531565344

  /** Where a layer's two tensors lie in the checkpoint file. */
  datatype Span = Span(rows: nat, weightOffset: nat, scaleOffset: nat)

  predicate HasRow(file: seq<byte>, t: Span, id: nat) {
    && t.weightOffset + (id + 1) * WEIGHT_BYTES <= |file|
    && t.scaleOffset + (id + 1) * SCALE_BYTES <= |file|
  }

  function Weight(file: seq<byte>, t: Span, id: nat): (w: seq<byte>)
    requires HasRow(file, t, id)
    ensures |w| == WEIGHT_BYTES
  {
    file[t.weightOffset + id * WEIGHT_BYTES..t.weightOffset + id * WEIGHT_BYTES + WEIGHT_BYTES]
  }

  function Scale(file: seq<byte>, t: Span, id: nat): (s: seq<byte>)
    requires HasRow(file, t, id)
    ensures |s| == SCALE_BYTES
  {
    file[t.scaleOffset + id * SCALE_BYTES..t.scaleOffset + id * SCALE_BYTES + SCALE_BYTES]
  }

  /** The logical row: 256 weight bytes, then 8 scale bytes. */
  function TableRow(file: seq<byte>, t: Span, id: nat): (r: seq<byte>)
    requires HasRow(file, t, id)
    ensures |r| == ROW_BYTES
  {
    Weight(file, t, id) + Scale(file, t, id)
  }

  function Words(words: seq<nat>): (s: seq<byte>)
    ensures |s| == 8 * |words|
  {
    if words == [] then [] else ToBytes(words[0], 8) + Words(words[1..])
  }

  lemma {:induction false} WordAt(words: seq<nat>, k: nat)
    requires k < |words|
    ensures Words(words)[8 * k..8 * k + 8] == ToBytes(words[k], 8)
  {
    if k > 0 {
      WordAt(words[1..], k - 1);
      assert Words(words)[8 * k..8 * k + 8] == Words(words[1..])[8 * (k - 1)..8 * (k - 1) + 8];
    }
  }

  function Header(layer: nat, lo: nat, hi: nat, rows: nat): (h: seq<byte>)
    ensures |h| == HEADER_BYTES
  {
    Words([MAGIC, layer, lo, hi, rows, ROW_BYTES]) + seq(HEADER_BYTES - 48, _ => 0)
  }

  /** The k-th run of `size` bytes. */
  function Piece(s: seq<byte>, size: nat, k: nat): (p: seq<byte>)
    requires k * size + size <= |s|
    ensures |p| == size
  {
    s[k * size..k * size + size]
  }

  /** The k-th record of `body` is row first + k of the table. */
  ghost predicate RecordIs(body: seq<byte>, file: seq<byte>, t: Span, first: nat, k: nat) {
    && k * ROW_BYTES + ROW_BYTES <= |body|
    && HasRow(file, t, first + k)
    && Piece(body, ROW_BYTES, k) == TableRow(file, t, first + k)
  }

  /** `body` is the records of rows first, first + 1, ..., n of them. */
  ghost predicate Records(body: seq<byte>, file: seq<byte>, t: Span, first: nat, n: nat) {
    && |body| == n * ROW_BYTES
    && (forall k :: 0 <= k < n ==> RecordIs(body, file, t, first, k))
  }

  ghost predicate IsShard(shard: seq<byte>, file: seq<byte>, t: Span, layer: nat, lo: nat, hi: nat) {
    && lo < hi <= t.rows
    && layer < WORD && t.rows < WORD
    && |shard| >= HEADER_BYTES
    && shard[..HEADER_BYTES] == Header(layer, lo, hi, t.rows)
    && Records(shard[HEADER_BYTES..], file, t, lo, hi - lo)
  }

  /** One chunk's block: weights and scales interleaved as 264-byte records. */
  function Block(weights: seq<byte>, scales: seq<byte>, n: nat): (b: seq<byte>)
    requires |weights| == n * WEIGHT_BYTES && |scales| == n * SCALE_BYTES
    ensures |b| == n * ROW_BYTES
  {
    if n == 0 then [] else
      Block(weights[..(n - 1) * WEIGHT_BYTES], scales[..(n - 1) * SCALE_BYTES], n - 1)
      + (weights[(n - 1) * WEIGHT_BYTES..] + scales[(n - 1) * SCALE_BYTES..])
  }

  lemma {:induction false} BlockRecord(weights: seq<byte>, scales: seq<byte>, n: nat, k: nat)
    requires |weights| == n * WEIGHT_BYTES && |scales| == n * SCALE_BYTES && k < n
    ensures Piece(Block(weights, scales, n), ROW_BYTES, k)
              == Piece(weights, WEIGHT_BYTES, k) + Piece(scales, SCALE_BYTES, k)
  {
    var ws, ss := weights[..(n - 1) * WEIGHT_BYTES], scales[..(n - 1) * SCALE_BYTES];
    var b, last := Block(ws, ss, n - 1), weights[(n - 1) * WEIGHT_BYTES..] + scales[(n - 1) * SCALE_BYTES..];
    if k < n - 1 {
      BlockRecord(ws, ss, n - 1, k);
      assert Piece(b + last, ROW_BYTES, k) == Piece(b, ROW_BYTES, k);
      assert Piece(ws, WEIGHT_BYTES, k) == Piece(weights, WEIGHT_BYTES, k);
      assert Piece(ss, SCALE_BYTES, k) == Piece(scales, SCALE_BYTES, k);
    } else {
      assert Piece(b + last, ROW_BYTES, k) == last;
    }
  }

  /** Both of a chunk's reads come back complete. */
  predicate ChunkArrives(size: nat, t: Span, start: nat, n: nat, weights: int, scales: int) {
    && t.weightOffset + (start + n) * WEIGHT_BYTES <= size && weights >= n * WEIGHT_BYTES
    && t.scaleOffset + (start + n) * SCALE_BYTES <= size && scales >= n * SCALE_BYTES
  }

  /** One chunk of pack_layer: both reads must be complete. */
  method ReadChunk(file: seq<byte>, t: Span, start: nat, n: nat, weightAnswer: int, scaleAnswer: int)
    returns (r: Result<seq<byte>>)
    requires n > 0
    ensures r.Ok? <==> ChunkArrives(|file|, t, start, n, weightAnswer, scaleAnswer)
    ensures r.Ok? ==> Records(r.value, file, t, start, n)
  {
    var gotW, weights := Pread(file, t.weightOffset + start * WEIGHT_BYTES, n * WEIGHT_BYTES, weightAnswer);
    var gotS, scales := Pread(file, t.scaleOffset + start * SCALE_BYTES, n * SCALE_BYTES, scaleAnswer);
    if gotW != n * WEIGHT_BYTES || gotS != n * SCALE_BYTES {
      return Failed;
    }
    forall k | 0 <= k < n ensures RecordIs(Block(weights, scales, n), file, t, start, k) {
      BlockRecordIs(file, t, start, weights, scales, n, k);
    }
    r := Ok(Block(weights, scales, n));
  }

  /** A complete target is left alone. */
  predicate AlreadyThere(existing: Result<seq<byte>>, lo: nat, hi: nat)
    requires lo <= hi
  {
    existing.Ok? && |existing.value| == HEADER_BYTES + (hi - lo) * ROW_BYTES
  }

  /** pack_layer: a target of the right size is left alone; otherwise header and records are
      written chunk by chunk. It aborts exactly on a bad range, an unpackable header field, rows
      that are not in the file or a short read; answers at `start` are for the chunk from there. */
  method PackLayer(existing: Result<seq<byte>>, file: seq<byte>, t: Span, layer: nat, lo: nat, hi: nat, chunkRows: nat,
                   weightAnswers: nat -> int, scaleAnswers: nat -> int)
    returns (r: Result<seq<byte>>)
    requires chunkRows > 0
    ensures !(lo < hi <= t.rows) ==> r.Failed?
    ensures lo < hi <= t.rows && AlreadyThere(existing, lo, hi) ==> r == existing
    ensures lo < hi <= t.rows && !AlreadyThere(existing, lo, hi) ==>
              (r.Ok? ==> IsShard(r.value, file, t, layer, lo, hi))
              && (r.Failed? ==>
                    layer >= WORD || t.rows >= WORD
                    || exists start: nat :: lo <= start < hi && !ChunkArrives(|file|, t, start,
                         Min(chunkRows, hi - start), weightAnswers(start), scaleAnswers(start)))
  {
    if !(lo < hi <= t.rows) {
      return Failed;
    }
    if AlreadyThere(existing, lo, hi) {
      return existing;
    }
    if layer >= WORD || t.rows >= WORD {
      return Failed;
    }
    var dst := Header(layer, lo, hi, t.rows);
    ghost var body := [];
    var start := lo;
    while start < hi
      invariant lo <= start <= hi
      invariant Records(body, file, t, lo, start - lo)
      invariant dst == Header(layer, lo, hi, t.rows) + body
    {
      var stop := Min(start + chunkRows, hi);
      var n := stop - start;
      var block := ReadChunk(file, t, start, n, weightAnswers(start), scaleAnswers(start));
      if block.Failed? {
        assert n == Min(chunkRows, hi - start);
        return Failed;
      }
      AppendRecords(body, block.value, file, t, lo, start - lo, n);
      body := body + block.value;
      dst := dst + block.value;
      start := stop;
    }
    assert dst[HEADER_BYTES..] == body;
    r := Ok(dst);
  }

  lemma WeightPiece(file: seq<byte>, t: Span, start: nat, n: nat, k: nat)
    requires k < n && t.weightOffset + (start + n) * WEIGHT_BYTES <= |file| && HasRow(file, t, start + k)
    ensures Piece(file[t.weightOffset + start * WEIGHT_BYTES..t.weightOffset + start * WEIGHT_BYTES + n * WEIGHT_BYTES],
                  WEIGHT_BYTES, k) == Weight(file, t, start + k)
  {
    var w := t.weightOffset + start * WEIGHT_BYTES;
    SliceOfSlice(file, w, w + n * WEIGHT_BYTES, k * WEIGHT_BYTES, k * WEIGHT_BYTES + WEIGHT_BYTES);
  }

  lemma ScalePiece(file: seq<byte>, t: Span, start: nat, n: nat, k: nat)
    requires k < n && t.scaleOffset + (start + n) * SCALE_BYTES <= |file| && HasRow(file, t, start + k)
    ensures Piece(file[t.scaleOffset + start * SCALE_BYTES..t.scaleOffset + start * SCALE_BYTES + n * SCALE_BYTES],
                  SCALE_BYTES, k) == Scale(file, t, start + k)
  {
    var s := t.scaleOffset + start * SCALE_BYTES;
    SliceOfSlice(file, s, s + n * SCALE_BYTES, k * SCALE_BYTES, k * SCALE_BYTES + SCALE_BYTES);
  }

  lemma BlockRecordIs(file: seq<byte>, t: Span, start: nat, weights: seq<byte>, scales: seq<byte>, n: nat, k: nat)
    requires k < n
    requires t.weightOffset + (start + n) * WEIGHT_BYTES <= |file|
             && t.scaleOffset + (start + n) * SCALE_BYTES <= |file|
    requires var w := t.weightOffset + start * WEIGHT_BYTES; weights == file[w..w + n * WEIGHT_BYTES]
    requires scales == file[t.scaleOffset + start * SCALE_BYTES..t.scaleOffset + start * SCALE_BYTES + n * SCALE_BYTES]
    ensures RecordIs(Block(weights, scales, n), file, t, start, k)
  {
    WeightPiece(file, t, start, n, k);
    ScalePiece(file, t, start, n, k);
    BlockRecord(weights, scales, n, k);
  }

  lemma AppendRecords(body: seq<byte>, block: seq<byte>, file: seq<byte>, t: Span, first: nat, m: nat, n: nat)
    requires Records(body, file, t, first, m) && Records(block, file, t, first + m, n)
    ensures Records(body + block, file, t, first, m + n)
  {
    forall k | 0 <= k < m + n ensures RecordIs(body + block, file, t, first, k) {
      if k < m {
        assert RecordIs(body, file, t, first, k);
        assert Piece(body + block, ROW_BYTES, k) == Piece(body, ROW_BYTES, k);
      } else {
        assert RecordIs(block, file, t, first + m, k - m);
        assert Piece(body + block, ROW_BYTES, k) == Piece(block, ROW_BYTES, k - m);
      }
    }
  }

  // ---------------------------------------------------------------------------
  // Attaching.

  datatype Verdict = Attached | Ignored | Fatal

  function HeaderWord(header: seq<byte>, k: nat): nat
    requires |header| >= HEADER_BYTES && k < 6
  {
    FromBytes(header[8 * k..8 * k + 8])
  }

  /** What the header's pread delivered. */
  ghost predicate HeaderRead(shard: seq<byte>, got: int, header: seq<byte>) {
    && -1 <= got <= HEADER_BYTES
    && (got > 0 ==> got <= |shard| && header == shard[..got])
  }

  /** row_store_attach_packed on a shard of `size` bytes that could be opened, when pread returned
      `got` and the bytes `header`. */
  function Attach(got: int, header: seq<byte>, size: nat, layer: nat, lo: nat, hi: nat, rows: nat): Verdict
    requires lo <= hi && (got >= HEADER_BYTES ==> |header| >= HEADER_BYTES)
  {
    if got < HEADER_BYTES then Fatal
    else if HeaderWord(header, 0) != MAGIC || HeaderWord(header, 1) != layer || HeaderWord(header, 2) != lo
         || HeaderWord(header, 3) != hi || HeaderWord(header, 4) != rows || HeaderWord(header, 5) != ROW_BYTES
           then Ignored
    else if size < HEADER_BYTES + (hi - lo) * ROW_BYTES then Fatal
    else Attached
  }

  lemma HeaderWords(shard: seq<byte>, layer: nat, lo: nat, hi: nat, rows: nat)
    requires layer < WORD && lo < WORD && hi < WORD && rows < WORD
    requires |shard| >= HEADER_BYTES && shard[..HEADER_BYTES] == Header(layer, lo, hi, rows)
    ensures HeaderWord(shard, 0) == MAGIC && HeaderWord(shard, 1) == layer && HeaderWord(shard, 2) == lo
    ensures HeaderWord(shard, 3) == hi && HeaderWord(shard, 4) == rows && HeaderWord(shard, 5) == ROW_BYTES
  {
    Power256Of8();
    var words := [MAGIC, layer, lo, hi, rows, ROW_BYTES];
    forall k | 0 <= k < 6 ensures HeaderWord(shard, k) == words[k] {
      WordAt(words, k);
      assert shard[8 * k..8 * k + 8] == Words(words)[8 * k..8 * k + 8] by {
        assert shard[..48] == Words(words) by {
          assert shard[..48] == shard[..HEADER_BYTES][..48];
        }
        SliceOfSlice(shard, 0, 48, 8 * k, 8 * k + 8);
      }
      WordRoundTrip(words[k], 8);
    }
    assert HeaderWord(shard, 0) == words[0] && HeaderWord(shard, 5) == words[5];
  }

  /** The six words that begin the header of a shard for a layer, a range and a table size. */
  function HeaderStart(layer: nat, lo: nat, hi: nat, rows: nat): (h: seq<byte>)
    ensures |h| == 48
  {
    Words([MAGIC, layer, lo, hi, rows, ROW_BYTES])
  }

  lemma WordIs(header: seq<byte>, k: nat, w: nat)
    requires |header| >= HEADER_BYTES && k < 6
    ensures HeaderWord(header, k) == w <==> w < WORD && header[8 * k..8 * k + 8] == ToBytes(w, 8)
  {
    Power256Of8();
    var bytes := header[8 * k..8 * k + 8];
    BytesRoundTrip(bytes);
    if w < WORD {
      WordRoundTrip(w, 8);
    }
  }

  lemma SixWords(s: seq<byte>, words: seq<nat>)
    requires |s| == 48 && |words| == 6
    ensures s == Words(words) <==> forall k :: 0 <= k < 6 ==> s[8 * k..8 * k + 8] == ToBytes(words[k], 8)
  {
    forall k | 0 <= k < 6 ensures Words(words)[8 * k..8 * k + 8] == ToBytes(words[k], 8) {
      WordAt(words, k);
    }
    if forall k :: 0 <= k < 6 ==> s[8 * k..8 * k + 8] == ToBytes(words[k], 8) {
      forall i | 0 <= i < 48 ensures s[i] == Words(words)[i] {
        var k, o := i / 8, i % 8;
        assert s[8 * k..8 * k + 8] == ToBytes(words[k], 8) == Words(words)[8 * k..8 * k + 8];
        assert s[i] == s[8 * k..8 * k + 8][o];
        assert Words(words)[i] == Words(words)[8 * k..8 * k + 8][o];
      }
    }
  }

  /** The verdict on any file at all: it is looked at only if its header can be read in full and
      begins with the six words, and is then refused if it is too short for the range. */
  lemma AttachIs(shard: seq<byte>, got: int, header: seq<byte>, layer: nat, lo: nat, hi: nat, rows: nat)
    requires lo <= hi < WORD && layer < WORD && rows < WORD && HeaderRead(shard, got, header)
    ensures Attach(got, header, |shard|, layer, lo, hi, rows) ==
            if got < HEADER_BYTES then Fatal
            else if shard[..48] != HeaderStart(layer, lo, hi, rows) then Ignored
            else if |shard| < HEADER_BYTES + (hi - lo) * ROW_BYTES then Fatal
            else Attached
  {
    if got == HEADER_BYTES {
      var words := [MAGIC, layer, lo, hi, rows, ROW_BYTES];
      assert header[..48] == shard[..48];
      SixWords(header[..48], words);
      forall k | 0 <= k < 6
        ensures HeaderWord(header, k) == words[k] <==> header[..48][8 * k..8 * k + 8] == ToBytes(words[k], 8)
      {
        WordIs(header, k, words[k]);
        SliceOfSlice(header, 0, 48, 8 * k, 8 * k + 8);
      }
      SixEqual(header, words);
    }
  }

  /** The code's comparison of the six words, one by one. */
  lemma SixEqual(header: seq<byte>, words: seq<nat>)
    requires |header| >= HEADER_BYTES && |words| == 6
    ensures (forall k :: 0 <= k < 6 ==> HeaderWord(header, k) == words[k])
            <==> HeaderWord(header, 0) == words[0] && HeaderWord(header, 1) == words[1]
                 && HeaderWord(header, 2) == words[2] && HeaderWord(header, 3) == words[3]
                 && HeaderWord(header, 4) == words[4] && HeaderWord(header, 5) == words[5]
  {
  }

  /** A shard pack_layer wrote stops the process exactly when its header cannot be read in full;
      otherwise it is attached by the store whose layer, range and table size it was written
      for, and ignored by any other. */
  lemma WrittenShardAccepted(shard: seq<byte>, file: seq<byte>, t: Span, layer: nat, lo: nat, hi: nat,
                             got: int, header: seq<byte>, layer': nat, lo': nat, hi': nat, rows': nat)
    requires IsShard(shard, file, t, layer, lo, hi) && lo' <= hi' && HeaderRead(shard, got, header)
    ensures Attach(got, header, |shard|, layer', lo', hi', rows') ==
            if got < HEADER_BYTES then Fatal
            else if (layer', lo', hi', rows') == (layer, lo, hi, t.rows) then Attached else Ignored
  {
    if got == HEADER_BYTES {
      assert header[..HEADER_BYTES] == header;
      HeaderWords(header, layer, lo, hi, t.rows);
    }
  }

  /** The bytes of such a shard. */
  function Written(file: seq<byte>, t: Span, layer: nat, lo: nat, hi: nat): seq<byte>
    requires lo < hi && t.weightOffset + hi * WEIGHT_BYTES <= |file| && t.scaleOffset + hi * SCALE_BYTES <= |file|
  {
    var n, w, s := hi - lo, t.weightOffset + lo * WEIGHT_BYTES, t.scaleOffset + lo * SCALE_BYTES;
    Header(layer, lo, hi, t.rows) + Block(file[w..w + n * WEIGHT_BYTES], file[s..s + n * SCALE_BYTES], n)
  }

  lemma WrittenIsShard(file: seq<byte>, t: Span, layer: nat, lo: nat, hi: nat)
    requires lo < hi <= t.rows && layer < WORD && t.rows < WORD
    requires t.weightOffset + hi * WEIGHT_BYTES <= |file| && t.scaleOffset + hi * SCALE_BYTES <= |file|
    ensures IsShard(Written(file, t, layer, lo, hi), file, t, layer, lo, hi)
  {
    WrittenRecords(file, t, layer, lo, hi);
    assert Written(file, t, layer, lo, hi)[..HEADER_BYTES] == Header(layer, lo, hi, t.rows);
  }

  lemma WrittenRecords(file: seq<byte>, t: Span, layer: nat, lo: nat, hi: nat)
    requires lo < hi
    requires t.weightOffset + hi * WEIGHT_BYTES <= |file| && t.scaleOffset + hi * SCALE_BYTES <= |file|
    ensures Records(Written(file, t, layer, lo, hi)[HEADER_BYTES..], file, t, lo, hi - lo)
  {
    var n, w, s := hi - lo, t.weightOffset + lo * WEIGHT_BYTES, t.scaleOffset + lo * SCALE_BYTES;
    var weights, scales := file[w..w + n * WEIGHT_BYTES], file[s..s + n * SCALE_BYTES];
    assert Written(file, t, layer, lo, hi)[HEADER_BYTES..] == Block(weights, scales, n);
    forall k | 0 <= k < n ensures RecordIs(Block(weights, scales, n), file, t, lo, k) {
      BlockRecordIs(file, t, lo, weights, scales, n, k);
    }
  }

  /** The header's first bytes spell "DSV1EN41": the magic word is not the "DSV41EN1" that the
      comments beside it name. */
  lemma MagicSpelling()
    ensures ToBytes(MAGIC, 8) == [0x44, 0x53, 0x56, 0x31, 0x45, 0x4E, 0x34, 0x31]
  {
    assert ToBytes(0x31344E45, 4) == [0x45, 0x4E, 0x34, 0x31] by {
      assert ToBytes(0x3134, 2) == [0x34, 0x31];
    }
    assert ToBytes(0x31344E453156, 6) == [0x56, 0x31] + ToBytes(0x31344E45, 4);
    assert ToBytes(MAGIC, 8) == [0x44, 0x53] + ToBytes(0x31344E453156, 6);
  }
}

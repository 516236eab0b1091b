/** Reading row-sized pieces of a file (read_from and pin_scales in overlay/row_store.cpp). */
module RowFiles {
  import opened Arithmetic
  import opened Bytes

  const PAGE: nat := 4096
  const BUFFER: nat := 8192

  datatype Result<T> = Ok(value: T) | Failed

  /** offset & ~(kPage - 1). */
  function PageBase(offset: nat): (b: nat)
    ensures b <= offset < b + PAGE && b % PAGE == 0
  {
    offset - offset % PAGE
  }

  /** What read_from asks pread for: whole pages from the page of `offset`. */
  function WindowBytes(offset: nat, length: nat): (w: nat)
    ensures offset - PageBase(offset) + length <= w < offset - PageBase(offset) + length + PAGE && w % PAGE == 0
  {
    CeilDiv(offset - PageBase(offset) + length, PAGE) * PAGE
  }

  /** The stack buffer is large enough exactly for reads of at most a page and a byte. */
  lemma WindowFits(length: nat)
    ensures (forall offset: nat :: WindowBytes(offset, length) <= BUFFER) <==> length <= PAGE + 1
  {
    if length <= PAGE + 1 {
      forall offset: nat ensures WindowBytes(offset, length) <= BUFFER {
        assert offset - PageBase(offset) + length + PAGE - 1 < 3 * PAGE;
      }
    } else {
      assert PageBase(PAGE - 1) == 0;
      assert WindowBytes(PAGE - 1, length) > BUFFER;
    }
  }

  /** What pread returns after its EINTR loop when the kernel is ready to deliver `answer` bytes
      (an error if that is negative): never more than was asked for or than the file has. How
      much the kernel delivers is up to it. */
  function Got(size: nat, offset: nat, want: nat, answer: int): (g: int)
    ensures -1 <= g <= want && (g > 0 ==> offset + g <= size)
  {
    if answer < 0 then -1 else if offset >= size then 0 else Min(answer, Min(want, size - offset))
  }

  method Pread(file: seq<byte>, offset: nat, want: nat, answer: int) returns (got: int, data: seq<byte>)
    ensures got == Got(|file|, offset, want, answer)
    ensures got >= 0 ==> |data| == got
    ensures got > 0 ==> data == file[offset..offset + got]
  {
    got := Got(|file|, offset, want, answer);
    data := if got > 0 then file[offset..offset + got] else [];
  }

  /** The kernel delivers a row-sized read: it is in the file, and the bytes from its page on reach
      as far as its end. */
  predicate Arrives(size: nat, offset: nat, length: nat, answer: int) {
    offset + length <= size && answer >= offset - PageBase(offset) + length
  }

  lemma ArrivesIff(size: nat, offset: nat, length: nat, answer: int)
    requires length > 0
    ensures Got(size, PageBase(offset), WindowBytes(offset, length), answer) >= offset - PageBase(offset) + length
            <==> Arrives(size, offset, length, answer)
  {
  }

  /** A row-sized read returns exactly the requested bytes when they arrive and fails when they do
      not; it never touches its buffer beyond its end. */
  method ReadFrom(file: seq<byte>, resident: bool, offset: nat, length: nat, answer: int) returns (r: Result<seq<byte>>)
    requires 0 < length <= PAGE + 1 && (resident ==> offset + length <= |file|)
    ensures r.Ok? <==> resident || Arrives(|file|, offset, length, answer)
    ensures r.Ok? ==> offset + length <= |file| && r.value == file[offset..offset + length]
  {
    if resident {
      return Ok(file[offset..offset + length]);
    }
    var page := new byte[BUFFER];
    var base := PageBase(offset);
    var delta := offset - base;
    var requested := WindowBytes(offset, length);
    assert requested <= BUFFER by {
      WindowFits(length);
    }
    ArrivesIff(|file|, offset, length, answer);
    var got, data := Pread(file, base, requested, answer);
    if got < 0 || got < delta + length {
      return Failed;
    }
    forall k | 0 <= k < got {
      page[k] := data[k];
    }
    assert page[..got] == data;
    SliceOfSlice(file, base, base + got, delta, delta + length);
    assert page[delta..delta + length] == data[delta..delta + length];
    assert page[delta..delta + length] == file[offset..offset + length];
    r := Ok(page[delta..delta + length]);
  }

  /** pin_scales' chunked copy of file bytes [start, end) through a page-aligned buffer; answers(o)
      is how much the kernel delivers at offset o. However short the reads, every byte is in
      place, and the copy fails only where nothing more was delivered. */
  method CopyRange(file: seq<byte>, start: nat, end: nat, span: nat, answers: nat -> int) returns (r: Result<seq<byte>>)
    requires start < end <= |file| && span > 0
    ensures r.Ok? ==> r.value == file[start..end]
    ensures r.Failed? ==> exists offset: nat :: PageBase(start) <= offset < end && answers(offset) <= 0
  {
    var out := new byte[end - start];
    var offset := PageBase(start);
    while offset < end
      invariant PageBase(start) <= offset
      invariant forall j :: 0 <= j < Min(offset, end) - start ==> out[j] == file[start + j]
      decreases end - offset
    {
      var want := Min(span, CeilDiv(end - offset, PAGE) * PAGE);
      WholePages(end - offset);
      var got, buffer := Pread(file, offset, want, answers(offset));
      if got <= 0 {
        assert answers(offset) <= 0;
        return Failed;
      }
      var lo, hi := Max(offset, start), Min(offset + got, end);
      assert forall k :: 0 <= k < got ==> buffer[k] == file[offset + k];
      if hi > lo {
        forall j | lo - start <= j < hi - start {
          out[j] := buffer[start + j - offset];
        }
        forall j | lo - start <= j < hi - start ensures out[j] == file[start + j] {
          assert out[j] == buffer[start + j - offset];
        }
      }
      offset := offset + got;
    }
    assert out[..] == file[start..end];
    r := Ok(out[..]);
  }

  lemma WholePages(n: nat)
    ensures n > 0 ==> CeilDiv(n, PAGE) * PAGE > 0
  {
  }

  /** The pinned scale rows of [lo, hi), or Failed when there are none or they could not be read. */
  method PinScales(file: seq<byte>, resident: bool, scaleOffset: nat, lo: nat, hi: nat, answers: nat -> int)
    returns (r: Result<seq<byte>>)
    requires lo <= hi && scaleOffset + hi * SCALE_BYTES <= |file|
    ensures r.Ok? ==> r.value == file[scaleOffset + lo * SCALE_BYTES..scaleOffset + hi * SCALE_BYTES]
    ensures lo == hi ==> r.Failed?
    ensures lo < hi && (resident || forall offset: nat :: answers(offset) > 0) ==> r.Ok?
  {
    if hi - lo == 0 {
      return Failed;
    }
    var start, end := scaleOffset + lo * SCALE_BYTES, scaleOffset + hi * SCALE_BYTES;
    if resident {
      return Ok(file[start..end]);
    }
    r := CopyRange(file, start, end, 8 * 0x10_0000, answers);
  }
}

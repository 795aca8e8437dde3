/** The read side of the file system: mxfs_read, mxfs_timerange and mxfs_timerange_by_block as loops
    over page buffers, proved against the walks of PageFormat and the listing of IndexQuery. */
module Queries {
  import opened Layout
  import opened CompressHeader
  import opened PageFormat
  import opened PageEncoder
  import opened EraseDiscipline
  import opened IndexQuery
  import opened FakeFlash
  import opened Instance
  import L = LogFs

  /** mxfs_timerange_t. */
  datatype TimeRange = TimeRange(block: nat, page: nat, start: nat, last: nat, count: nat)

  /** Pages of the data area never make a walk leave its buffer. */
  lemma DataPagesAreChains(d: L.Disk, b: nat, p: nat)
    requires DataOk(d) && BLOCK_START_DATA_AREA <= b < BLOCK_COUNT && p < PAGE_COUNT
    ensures DataChain(d[b][p]) && ReadInBounds(d[b][p])
  {
    var page := d[b][p];
    assert BlockOk(d[b], AnyIndex());
    if Blank(page) {
      BlankPageHasNoRecords(0, PAGE_SIZE, EMPTY_SPAN);
    } else {
      var bufs :| Fits(bufs) && !AllEmpty(bufs) && page == Padded(PageImage(bufs));
      PageRoundTrip(bufs, 0, PAGE_SIZE, EMPTY_SPAN);
    }
  }

  /** Copy `n` bytes out of the page buffer into the caller's. */
  method CopyOut(rbf: array<Byte>, from: nat, n: nat, buffer: array<Byte>, at: nat)
    requires rbf != buffer && from + n <= rbf.Length && at + n <= buffer.Length
    modifies buffer
    ensures buffer[..] == old(buffer[..at]) + rbf[from..from + n] + old(buffer[at + n..])
    ensures buffer[..at + n] == old(buffer[..at]) + rbf[from..from + n]
  {
    Copy(buffer, at, rbf[from..from + n]);
  }

  /** `off` bytes of the page have been copied to the buffer that was `before`. */
  predicate CopiedSoFar(image: seq<Byte>, before: seq<Byte>, bytes: seq<Byte>, at: nat, from: nat, off: nat)
  {
    && |image| == |before| && at + off <= |before| && from + off <= |bytes|
    && image[..at + off] == before[..at] + bytes[from..from + off]
    && image[at + off..] == before[at + off..]
  }

  /** The inner loop over the records behind a gyro or temperature header. */
  method CopyEach(rbf: array<Byte>, from: nat, count: nat, size: nat, buffer: array<Byte>, at: nat)
    requires rbf != buffer && from + count * size <= rbf.Length && at + count * size <= buffer.Length
    modifies buffer
    ensures CopiedSoFar(buffer[..], old(buffer[..]), rbf[..], at, from, count * size)
  {
    ghost var before, bytes := buffer[..], rbf[..];
    var off := 0;
    StepInside(0, count + 1, size);
    NothingCopied(before, bytes, at, from);
    for n := 0 to count
      invariant off == n * size && off <= count * size
      invariant rbf[..] == bytes && CopiedSoFar(buffer[..], before, bytes, at, from, off)
    {
      StepInside(n, count, size);
      CopyOneMore(rbf, from, off, size, buffer, at, before, bytes);
      off := off + size;
    }
  }

  lemma NothingCopied(before: seq<Byte>, bytes: seq<Byte>, at: nat, from: nat)
    requires at <= |before| && from <= |bytes|
    ensures CopiedSoFar(before, before, bytes, at, from, 0)
  {
    EmptyIsNeutral(before[..at]);
  }

  lemma StepInside(n: nat, count: nat, size: nat)
    requires n < count
    ensures n * size + size == (n + 1) * size <= count * size
  {
    ProductOrder(n + 1, count, size);
  }

  /** One record of that loop. */
  method CopyOneMore(rbf: array<Byte>, from: nat, off: nat, size: nat, buffer: array<Byte>, at: nat,
                     ghost before: seq<Byte>, ghost bytes: seq<Byte>)
    requires rbf != buffer && rbf[..] == bytes && from + off + size <= rbf.Length
    requires at + off + size <= buffer.Length
    requires CopiedSoFar(buffer[..], before, bytes, at, from, off)
    modifies buffer
    ensures rbf[..] == bytes
    ensures CopiedSoFar(buffer[..], before, bytes, at, from, off + size)
  {
    ghost var now := buffer[..];
    assert now[..at + off] == buffer[..at + off];
    Copy(buffer, at + off, rbf[from + off..from + off + size]);
    SliceJoin(bytes, from, from + off, from + off + size);
    Associative(before[..at], bytes[from..from + off], bytes[from + off..from + off + size]);
    SameTail(now, before, at + off, at + off + size);
    assert buffer[..][..at + off + size] == buffer[..at + off + size];
  }

  lemma SliceJoin<T>(s: seq<T>, from: nat, mid: nat, upto: nat)
    requires from <= mid <= upto <= |s|
    ensures s[from..mid] + s[mid..upto] == s[from..upto]
  {
  }

  lemma SameTail<T>(a: seq<T>, b: seq<T>, n: nat, m: nat)
    requires |a| == |b| && n <= m <= |a| && a[n..] == b[n..]
    ensures a[m..] == b[m..]
  {
    assert a[n..][m - n..] == a[m..] && b[n..][m - n..] == b[m..];
  }

  /** A call delivered exactly `wanted` at the front of the caller's buffer and touched nothing else. */
  predicate Delivered(wanted: seq<Byte>, ret: int, before: seq<Byte>, after: seq<Byte>)
  {
    && ret == |wanted| <= |after| == |before|
    && after[..ret] == wanted
    && after[ret..] == before[ret..]
  }

  /** The page exists and its headers keep the walk inside the page. */
  ghost predicate Readable(flash: Flash, block: nat, page: nat)
    reads flash.blocks
  {
    flash.Valid() && block < BLOCK_COUNT && page < PAGE_COUNT && ReadInBounds(flash.Image()[block][page])
  }

  /** What mxfs_read has to return. */
  ghost function Wanted(flash: Flash, block: nat, page: nat, layer: nat, bufferLen: nat): seq<Byte>
    requires Readable(flash, block, page)
    reads flash.blocks
  {
    ReadWalk(flash.Image()[block][page], layer, bufferLen)
  }

  /** mxfs_read. The caller provides room for the layer's bytes; the source checks `bufferLen` for 0
      and bounds only configuration text by it. */
  method Read(flash: Flash, layer: nat, buffer: array?<Byte>, bufferLen: nat, block: nat, page: nat) returns (ret: int)
    requires Readable(flash, block, page)
    requires buffer != null ==> |Wanted(flash, block, page, layer, bufferLen)| <= buffer.Length
    modifies buffer
    ensures buffer == null || bufferLen == 0 ==> ret == ERR
    ensures buffer != null && bufferLen == 0 ==> buffer[..] == old(buffer[..])
    ensures buffer != null && bufferLen > 0 ==>
              Delivered(old(Wanted(flash, block, page, layer, bufferLen)), ret, old(buffer[..]), buffer[..])
  {
    if bufferLen == 0 || buffer == null {
      return ERR;
    }
    var rbf := new Byte[PAGE_SIZE](i => 0);
    ReadPageOf(flash, block, page, rbf);
    ret := ReadPage(rbf, layer, buffer, bufferLen, rbf[..]);
  }

  /** mxfs_driver_read into a page buffer. */
  method ReadPageOf(flash: Flash, block: nat, page: nat, rbf: array<Byte>)
    requires flash.Valid() && block < BLOCK_COUNT && page < PAGE_COUNT && rbf.Length == PAGE_SIZE
    modifies rbf
    ensures flash.Valid() && flash.Image() == old(flash.Image()) && rbf[..] == flash.Image()[block][page]
  {
    flash.Read(block, page, rbf);
    EmptyIsNeutral(rbf[..]);
  }

  lemma UnpackPrefix(rest: seq<Byte>)
    requires |rest| >= HEADER_SIZE
    ensures Unpack(rest[..HEADER_SIZE]) == Unpack(rest)
  {
  }

  lemma SliceInRest<T>(s: seq<T>, offset: nat, from: nat, upto: nat)
    requires from <= upto && offset + upto <= |s|
    ensures s[offset..][from..upto] == s[offset + from..offset + upto]
  {
  }

  lemma RestOfRest<T>(s: seq<T>, offset: nat, n: nat)
    requires offset + n <= |s|
    ensures s[offset..][n..] == s[offset + n..]
  {
  }

  /** The header at an offset of the page buffer. */
  method HeaderAt(rbf: array<Byte>, offset: nat, ghost page: seq<Byte>) returns (cp: Header)
    requires rbf[..] == page && offset + HEADER_SIZE <= |page|
    ensures cp == Unpack(page[offset..])
  {
    cp := Unpack(rbf[offset..offset + HEADER_SIZE]);
    assert rbf[offset..offset + HEADER_SIZE] == page[offset..][..HEADER_SIZE];
    UnpackPrefix(page[offset..]);
  }

  method MagicAt(rbf: array<Byte>, offset: nat, ghost page: seq<Byte>) returns (yes: bool)
    requires rbf[..] == page && offset + 4 <= |page|
    ensures yes <==> HasMagic(page[offset..])
  {
    yes := FromLe32(rbf[offset], rbf[offset + 1], rbf[offset + 2], rbf[offset + 3]) == MAGIC;
  }

  /** What one header makes mxfs_read return, before it goes on behind it. */
  function OwnBytes(rest: seq<Byte>, layer: nat, bufferLen: nat): seq<Byte>
    requires ReadInBounds(rest) && HasMagic(rest)
  {
    var h := Unpack(rest);
    if h.kind != layer then []
    else if h.kind < LAYER_CONFIG then rest[HEADER_SIZE..HEADER_SIZE + CopyLength(h)]
    else if h.kind == LAYER_CONFIG then rest[HEADER_SIZE..HEADER_SIZE + Min(TmpBase(h), bufferLen)]
    else []
  }

  lemma WalkUnfolds(rest: seq<Byte>, layer: nat, bufferLen: nat)
    requires ReadInBounds(rest) && HasMagic(rest)
    ensures var h := Unpack(rest);
            ReadWalk(rest, layer, bufferLen)
            == OwnBytes(rest, layer, bufferLen)
               + if h.kind == LAYER_CONFIG then [] else ReadWalk(rest[HEADER_SIZE + SkipLength(h)..], layer, bufferLen)
  {
    var h := Unpack(rest);
    if h.kind > LAYER_CONFIG {
      assert OwnBytes(rest, layer, bufferLen) == [] && SkipLength(h) == 0;
      EmptyIsNeutral(ReadWalk(rest[HEADER_SIZE..], layer, bufferLen));
    } else if h.kind == LAYER_CONFIG {
      EmptyIsNeutral(OwnBytes(rest, layer, bufferLen));
    }
  }

  /** The slice of the page buffer one header makes mxfs_read copy: its length. */
  function OwnLength(h: Header, layer: nat, bufferLen: nat): nat
  {
    if h.kind != layer then 0
    else if h.kind < LAYER_CONFIG then CopyLength(h)
    else if h.kind == LAYER_CONFIG then Min(TmpBase(h), bufferLen)
    else 0
  }

  lemma OwnBytesSlice(rest: seq<Byte>, layer: nat, bufferLen: nat)
    requires ReadInBounds(rest) && HasMagic(rest)
    ensures var n := OwnLength(Unpack(rest), layer, bufferLen);
            HEADER_SIZE + n <= |rest| && OwnBytes(rest, layer, bufferLen) == rest[HEADER_SIZE..HEADER_SIZE + n]
  {
  }

  /** The copy of one chunk, with the branches of mxfs_read. */
  method CopyChunk(rbf: array<Byte>, body: nat, cp: Header, layer: nat, buffer: array<Byte>, at: nat, bufferLen: nat)
    returns (resultOffset: nat)
    requires rbf != buffer && body + OwnLength(cp, layer, bufferLen) <= rbf.Length
    requires at + OwnLength(cp, layer, bufferLen) <= buffer.Length
    modifies buffer
    ensures resultOffset == at + OwnLength(cp, layer, bufferLen)
    ensures buffer[..resultOffset] == old(buffer[..at]) + rbf[body..body + OwnLength(cp, layer, bufferLen)]
    ensures buffer[resultOffset..] == old(buffer[resultOffset..])
  {
    resultOffset := at;
    if cp.kind == layer {
      if cp.kind < LAYER_ANTP_MAX {
        CopyOut(rbf, body, ANTP_RECORD_SIZE, buffer, at);
        resultOffset := at + ANTP_RECORD_SIZE;
      } else if cp.kind < LAYER_TEMPERATURE {
        CopyEach(rbf, body, GyrCount(cp), GYRO_RECORD_SIZE, buffer, at);
        resultOffset := at + GyrCount(cp) * GYRO_RECORD_SIZE;
      } else if cp.kind == LAYER_TEMPERATURE {
        CopyEach(rbf, body, TmpCount(cp), TEMPERATURE_RECORD_SIZE, buffer, at);
        resultOffset := at + TmpCount(cp) * TEMPERATURE_RECORD_SIZE;
      } else if cp.kind == LAYER_CONFIG {
        CopyOut(rbf, body, Min(TmpBase(cp), bufferLen), buffer, at);
        resultOffset := at + Min(TmpBase(cp), bufferLen);
      }
    }
  }

  lemma ReadStepOn(done: seq<Byte>, rest: seq<Byte>, layer: nat, bufferLen: nat)
    requires ReadInBounds(rest) && HasMagic(rest) && Unpack(rest).kind != LAYER_CONFIG
    ensures var h := Unpack(rest);
            && ReadInBounds(rest[HEADER_SIZE + SkipLength(h)..])
            && done + ReadWalk(rest, layer, bufferLen)
               == (done + OwnBytes(rest, layer, bufferLen))
                  + ReadWalk(rest[HEADER_SIZE + SkipLength(h)..], layer, bufferLen)
  {
    WalkUnfolds(rest, layer, bufferLen);
    Associative(done, OwnBytes(rest, layer, bufferLen),
                ReadWalk(rest[HEADER_SIZE + SkipLength(Unpack(rest))..], layer, bufferLen));
  }

  /** What has been copied and what the walk will still copy make up `all`. */
  predicate ReadSoFar(image: seq<Byte>, at: nat, rest: seq<Byte>, layer: nat, bufferLen: nat, all: seq<Byte>)
  {
    at <= |image| && ReadInBounds(rest) && image[..at] + ReadWalk(rest, layer, bufferLen) == all
  }

  /** One turn of the walk of mxfs_read. */
  method ReadChunk(rbf: array<Byte>, offset: nat, layer: nat, buffer: array<Byte>, at: nat, bufferLen: nat,
                   ghost page: seq<Byte>, ghost all: seq<Byte>)
    returns (next: nat, resultOffset: nat, stop: bool)
    requires rbf != buffer && rbf[..] == page && offset <= |page| && |all| <= buffer.Length
    requires HasMagic(page[offset..])
    requires ReadSoFar(buffer[..], at, page[offset..], layer, bufferLen, all)
    modifies buffer
    ensures at <= resultOffset <= buffer.Length && buffer[resultOffset..] == old(buffer[resultOffset..])
    ensures stop ==> buffer[..resultOffset] == all
    ensures !stop ==> offset < next <= |page| && ReadSoFar(buffer[..], resultOffset, page[next..], layer, bufferLen, all)
  {
    ghost var before := buffer[..];
    ChunkInRest(page, offset, layer, bufferLen);
    RoomAhead(before, at, page, offset, layer, bufferLen, all);
    var cp := HeaderAt(rbf, offset, page);
    resultOffset := CopyChunk(rbf, offset + HEADER_SIZE, cp, layer, buffer, at, bufferLen);
    next := offset + HEADER_SIZE + SkipLength(cp);
    stop := cp.kind == LAYER_CONFIG;
    assert buffer[..][..resultOffset] == buffer[..resultOffset];
    ReadAhead(before, at, buffer[..], resultOffset, page, offset, layer, bufferLen, all);
  }

  lemma RoomAhead(before: seq<Byte>, at: nat, page: seq<Byte>, offset: nat, layer: nat, bufferLen: nat, all: seq<Byte>)
    requires offset <= |page| && HasMagic(page[offset..])
    requires ReadSoFar(before, at, page[offset..], layer, bufferLen, all)
    ensures at + |OwnBytes(page[offset..], layer, bufferLen)| <= |all|
  {
    WalkUnfolds(page[offset..], layer, bufferLen);
  }

  /** One turn on values: own bytes first, the rest of the walk behind them. */
  lemma ReadAhead(before: seq<Byte>, at: nat, after: seq<Byte>, at': nat, page: seq<Byte>, offset: nat,
                  layer: nat, bufferLen: nat, all: seq<Byte>)
    requires offset <= |page| && HasMagic(page[offset..])
    requires ReadSoFar(before, at, page[offset..], layer, bufferLen, all)
    requires at' <= |after| && after[..at'] == before[..at] + OwnBytes(page[offset..], layer, bufferLen)
    ensures var h := Unpack(page[offset..]);
            if h.kind == LAYER_CONFIG then after[..at'] == all
            else
              && offset + HEADER_SIZE + SkipLength(h) <= |page|
              && ReadSoFar(after, at', page[offset + HEADER_SIZE + SkipLength(h)..], layer, bufferLen, all)
  {
    ChunkInRest(page, offset, layer, bufferLen);
    if Unpack(page[offset..]).kind == LAYER_CONFIG {
      WalkUnfolds(page[offset..], layer, bufferLen);
      EmptyIsNeutral(OwnBytes(page[offset..], layer, bufferLen));
    } else {
      ReadStepOn(before[..at], page[offset..], layer, bufferLen);
    }
  }

  lemma ChunkInRest(page: seq<Byte>, offset: nat, layer: nat, bufferLen: nat)
    requires offset <= |page| && ReadInBounds(page[offset..]) && HasMagic(page[offset..])
    ensures offset + HEADER_SIZE <= |page|
    ensures var h := Unpack(page[offset..]);
            var n := OwnLength(h, layer, bufferLen);
            && offset + HEADER_SIZE + n <= |page|
            && OwnBytes(page[offset..], layer, bufferLen) == page[offset + HEADER_SIZE..offset + HEADER_SIZE + n]
            && (h.kind != LAYER_CONFIG ==>
                  && offset + HEADER_SIZE + SkipLength(h) <= |page|
                  && page[offset..][HEADER_SIZE + SkipLength(h)..] == page[offset + HEADER_SIZE + SkipLength(h)..])
  {
    var rest := page[offset..];
    var h := Unpack(rest);
    OwnBytesSlice(rest, layer, bufferLen);
    SliceInRest(page, offset, HEADER_SIZE, HEADER_SIZE + OwnLength(h, layer, bufferLen));
    if h.kind != LAYER_CONFIG {
      RestOfRest(page, offset, HEADER_SIZE + SkipLength(h));
    }
  }

  /** The walk of mxfs_read over the page buffer. */
  method ReadPage(rbf: array<Byte>, layer: nat, buffer: array<Byte>, bufferLen: nat, ghost page: seq<Byte>)
    returns (resultOffset: nat)
    requires rbf != buffer && rbf[..] == page && ReadInBounds(page)
    requires |ReadWalk(page, layer, bufferLen)| <= buffer.Length
    modifies buffer
    ensures Delivered(ReadWalk(page, layer, bufferLen), resultOffset, old(buffer[..]), buffer[..])
  {
    resultOffset := 0;
    var offset := 0;
    ghost var all, initial := ReadWalk(page, layer, bufferLen), buffer[..];
    EmptyIsNeutral(all);
    assert page[0..] == page;
    while offset < rbf.Length
      invariant offset <= rbf.Length && resultOffset <= buffer.Length && rbf[..] == page
      invariant ReadSoFar(buffer[..], resultOffset, page[offset..], layer, bufferLen, all)
      invariant buffer[resultOffset..] == initial[resultOffset..]
    {
      var more := MagicAt(rbf, offset, page);
      if !more {
        break;
      }
      ghost var before, at := buffer[..], resultOffset;
      var stop;
      offset, resultOffset, stop := ReadChunk(rbf, offset, layer, buffer, resultOffset, bufferLen, page, all);
      SameTail(before, initial, at, resultOffset);
      if stop {
        return;
      }
    }
    EmptyIsNeutral(buffer[..resultOffset]);
  }

  // ----- mxfs_timerange_by_block

  /** What one header contributes, with the branches of mxfs_timerange_by_block. */
  method SpanHeader(cp: Header, layer: nat, s: Span) returns (r: Span, skip: nat)
    requires cp.kind < LAYER_MAX
    ensures r == if cp.kind == layer then SpanStep(s, cp) else s
    ensures skip == SkipLength(cp)
  {
    r, skip := s, 0;
    if cp.kind < LAYER_ANTP_MAX {
      if cp.kind == layer {
        r := Span(if s.start == 0 then cp.time * 1000 + cp.msec else s.start, cp.time * 1000 + cp.msec, s.count + 1);
      }
      skip := AntLength(cp);
    } else if cp.kind < LAYER_TEMPERATURE {
      if cp.kind == layer {
        r := OneHeaderSpan(cp, GyrCount(cp), s);
      }
      skip := GyrCount(cp) * GYRO_RECORD_SIZE;
    } else {
      if cp.kind == layer {
        r := OneHeaderSpan(cp, TmpCount(cp), s);
      }
      skip := TmpCount(cp) * TEMPERATURE_RECORD_SIZE;
    }
  }

  /** One turn of the second parser. */
  method SpanChunk(rbf: array<Byte>, offset: nat, layer: nat, s: Span, ghost bytes: seq<Byte>)
    returns (next: nat, r: Span)
    requires rbf[..] == bytes && offset <= |bytes| && DataChain(bytes[offset..]) && HasMagic(bytes[offset..])
    ensures offset < next <= |bytes| && DataChain(bytes[next..])
    ensures TimesWalk(bytes[next..], layer, r) == TimesWalk(bytes[offset..], layer, s)
  {
    HeaderInside(bytes, offset);
    var cp := HeaderAt(rbf, offset, bytes);
    var skip;
    r, skip := SpanHeader(cp, layer, s);
    next := offset + HEADER_SIZE + skip;
    SpanGoesOn(bytes, offset, layer, s, cp, r, next);
  }

  lemma HeaderInside(bytes: seq<Byte>, offset: nat)
    requires offset <= |bytes| && DataChain(bytes[offset..]) && HasMagic(bytes[offset..])
    ensures offset + HEADER_SIZE <= |bytes| && Unpack(bytes[offset..]).kind < LAYER_MAX
  {
    TimesStep(bytes[offset..], 0, EMPTY_SPAN);
  }

  lemma SpanGoesOn(bytes: seq<Byte>, offset: nat, layer: nat, s: Span, cp: Header, r: Span, next: nat)
    requires offset <= |bytes| && DataChain(bytes[offset..]) && HasMagic(bytes[offset..])
    requires offset + HEADER_SIZE <= |bytes| && cp == Unpack(bytes[offset..])
    requires r == (if cp.kind == layer then SpanStep(s, cp) else s) && next == offset + HEADER_SIZE + SkipLength(cp)
    ensures offset < next <= |bytes| && DataChain(bytes[next..])
    ensures TimesWalk(bytes[next..], layer, r) == TimesWalk(bytes[offset..], layer, s)
  {
    ChunkInside(bytes[offset..]);
    RestOfRest(bytes, offset, HEADER_SIZE + SkipLength(cp));
    TimesStepTo(bytes[offset..], bytes[next..], layer, s, r);
  }

  lemma ChunkInside(rest: seq<Byte>)
    requires DataChain(rest) && HasMagic(rest)
    ensures |rest| >= HEADER_SIZE && HEADER_SIZE + SkipLength(Unpack(rest)) <= |rest|
  {
  }

  /** 32-bit start, extrapolated end. */
  method OneHeaderSpan(cp: Header, count: nat, s: Span) returns (r: Span)
    requires LAYER_ANTP_MAX <= cp.kind < LAYER_MAX && count == RecordCount(cp)
    ensures r == SpanStep(s, cp)
  {
    var start := (cp.time * 1000 + cp.msec) % U32_RANGE;
    r := Span(if s.start == 0 then start else s.start, start + count * cp.step, s.count + count);
  }

  /** The walk of one page. */
  method SpanPage(rbf: array<Byte>, layer: nat, ghost bytes: seq<Byte>) returns (r: Span)
    requires rbf[..] == bytes && DataChain(bytes)
    ensures r == TimesWalk(bytes, layer, EMPTY_SPAN)
  {
    var offset := 0;
    r := EMPTY_SPAN;
    assert bytes[0..] == bytes;
    while offset < rbf.Length
      invariant offset <= |bytes| && DataChain(bytes[offset..])
      invariant TimesWalk(bytes[offset..], layer, r) == TimesWalk(bytes, layer, EMPTY_SPAN)
      decreases |bytes| - offset
    {
      var more := MagicAt(rbf, offset, bytes);
      if !more {
        break;
      }
      offset, r := SpanChunk(rbf, offset, layer, r, bytes);
    }
  }

  /** Span of one page of the chip. */
  ghost function SpanAt(d: L.Disk, layer: nat, block: nat, page: nat): Span
    requires L.DiskShape(d) && block < BLOCK_COUNT && page < PAGE_COUNT && DataChain(d[block][page])
  {
    TimesWalk(d[block][page], layer, EMPTY_SPAN)
  }

  /** The 2112-byte buffer of the source: the page, then the zeros it was filled with. */
  method ReadPadded(flash: Flash, block: nat, page: nat, ghost content: seq<Byte>) returns (rbf: array<Byte>)
    requires flash.Valid() && block < BLOCK_COUNT && page < PAGE_COUNT && content == flash.Image()[block][page]
    ensures fresh(rbf) && rbf[..] == content + Repeat<Byte>(0, 64)
  {
    rbf := new Byte[PAGE_SIZE + 64](i => 0);
    ghost var pad := rbf[PAGE_SIZE..];
    assert pad == Repeat<Byte>(0, 64);
    flash.Read(block, page, rbf);
    assert L.BlockShape(flash.Image()[block]);
  }

  /** One page read and parsed. */
  method ReadSpan(flash: Flash, layer: nat, block: nat, page: nat) returns (r: Span)
    requires flash.Valid() && block < BLOCK_COUNT && page < PAGE_COUNT && DataChain(flash.Image()[block][page])
    ensures r == SpanAt(flash.Image(), layer, block, page)
  {
    ghost var content, pad := flash.Image()[block][page], Repeat<Byte>(0, 64);
    var rbf := ReadPadded(flash, block, page, content);
    TimesWalkPadded(content, pad, layer, EMPTY_SPAN);
    r := SpanPage(rbf, layer, content + pad);
  }

  ghost predicate BlockReadable(d: L.Disk, block: nat)
  {
    L.DiskShape(d) && block < BLOCK_COUNT && forall p | 0 <= p < PAGE_COUNT :: DataChain(d[block][p])
  }

  /** The ranges of the first `n` pages of a block that hold the layer. */
  ghost function Ranges(d: L.Disk, layer: nat, block: nat, n: nat): seq<TimeRange>
    requires BlockReadable(d, block) && n <= PAGE_COUNT
  {
    if n == 0 then []
    else
      var s := SpanAt(d, layer, block, n - 1);
      Ranges(d, layer, block, n - 1)
      + if s.count > 0 then [TimeRange(block, n - 1, s.start, s.last, s.count)] else []
  }

  lemma {:induction false} RangesGrow(d: L.Disk, layer: nat, block: nat, m: nat, n: nat)
    requires BlockReadable(d, block) && m <= n <= PAGE_COUNT
    ensures Ranges(d, layer, block, m) <= Ranges(d, layer, block, n)
    decreases n
  {
    if m < n {
      RangesGrow(d, layer, block, m, n - 1);
    }
  }

  /** An answer with room for `limit` entries: the whole list, or its front and NEED_MORE_BUFFER. */
  predicate Answer(all: seq<TimeRange>, limit: nat, r: int, entries: seq<TimeRange>)
    requires limit <= |entries|
  {
    if |all| <= limit then r == |all| && entries[..|all|] == all
    else r == NEED_MORE_BUFFER && entries[..limit] == all[..limit]
  }

  /** What a block reports: nothing unless it carries the "used" flag. */
  ghost function BlockRanges(d: L.Disk, used: bool, layer: nat, block: nat, n: nat): seq<TimeRange>
    requires BlockReadable(d, block) && n <= PAGE_COUNT
  {
    if used then Ranges(d, layer, block, n) else []
  }

  lemma RangesStep(d: L.Disk, used: bool, layer: nat, block: nat, page: nat)
    requires BlockReadable(d, block) && page < PAGE_COUNT
    ensures var s := SpanAt(d, layer, block, page);
            BlockRanges(d, used, layer, block, page + 1)
            == BlockRanges(d, used, layer, block, page)
               + if used && s.count > 0 then [TimeRange(block, page, s.start, s.last, s.count)] else []
  {
    EmptyIsNeutral(BlockRanges(d, used, layer, block, page));
  }

  /** The page loop of mxfs_timerange_by_block. */
  method RangesOfBlock(flash: Flash, used: bool, layer: nat, block: nat, timerange: array<TimeRange>, limit: nat)
    returns (r: int)
    requires flash.Valid() && BlockReadable(flash.Image(), block) && limit <= timerange.Length
    modifies timerange
    ensures Answer(BlockRanges(old(flash.Image()), used, layer, block, PAGE_COUNT), limit, r, timerange[..])
  {
    ghost var d := flash.Image();
    var cnt := 0;
    for page := 0 to PAGE_COUNT
      invariant flash.Valid() && flash.Image() == d && cnt <= limit
      invariant timerange[..cnt] == BlockRanges(d, used, layer, block, page)
    {
      var s := EMPTY_SPAN;
      if used {
        s := ReadSpan(flash, layer, block, page);
      }
      RangesStep(d, used, layer, block, page);
      if s.count > 0 {
        if cnt < limit {
          timerange[cnt] := TimeRange(block, page, s.start, s.last, s.count);
          assert timerange[..cnt + 1] == timerange[..cnt] + [timerange[cnt]];
        } else {
          RangesGrow(d, layer, block, page + 1, PAGE_COUNT);
          return NEED_MORE_BUFFER;
        }
        cnt := cnt + 1;
      }
    }
    r := cnt;
  }

  /** mxfs_timerange_by_block. */
  method TimerangeByBlock(fs: Mxfs, layer: nat, block: nat, timerange: array?<TimeRange>, timerangecount: nat)
    returns (r: int)
    requires fs.Valid() && block < BLOCK_COUNT
    requires timerange != null ==> timerangecount <= timerange.Length
    requires block >= BLOCK_START_DATA_AREA ==> BlockReadable(fs.flash.Image(), block)
    modifies timerange
    ensures timerange == null || timerangecount == 0 || block < BLOCK_START_DATA_AREA ==> r == ERR
    ensures timerange != null && timerangecount > 0 && block >= BLOCK_START_DATA_AREA ==>
              Answer(BlockRanges(old(fs.flash.Image()), old(fs.blocks[block]).invalid, layer, block, PAGE_COUNT),
                     timerangecount, r, timerange[..])
  {
    if timerange == null || timerangecount == 0 {
      return ERR;
    }
    if block < BLOCK_START_DATA_AREA {
      return ERR;
    }
    r := RangesOfBlock(fs.flash, fs.blocks[block].invalid, layer, block, timerange, timerangecount);
  }

  // ----- mxfs_timerange

  /** The MAGIC test of one page, from a 16-byte read. */
  method ReadMagic(flash: Flash, block: nat, page: nat) returns (yes: bool)
    requires flash.Valid() && block < BLOCK_COUNT && page < PAGE_COUNT
    ensures yes <==> HasMagic(flash.Image()[block][page])
  {
    var rbf := new Byte[HEADER_SIZE](i => 0);
    flash.Read(block, page, rbf);
    ghost var content := flash.Image()[block][page];
    assert L.BlockShape(flash.Image()[block]);
    assert rbf[..] == content[..HEADER_SIZE];
    yes := WordAt(rbf[..], 0) == MAGIC;
    assert WordAt(rbf[..], 0) == WordAt(content, 0);
  }

  lemma {:induction false} ListingGrows(s: L.State, layer: nat, j: nat, k: nat)
    requires L.WellFormed(s) && layer < LAYER_MAX && j <= k <= SLOT_COUNT
    ensures Listing(s, layer, j) <= Listing(s, layer, k)
    decreases k
  {
    if j < k {
      ListingGrows(s, layer, j, k - 1);
    }
  }

  predicate SlotsAre(ranges: seq<TimeRange>, slots: seq<Slot>)
  {
    |ranges| == |slots|
    && forall i | 0 <= i < |slots| ::
         Slot(ranges[i].block, ranges[i].page) == slots[i] && ranges[i].start == ranges[i].last == 0
  }

  /** An answer of mxfs_timerange with room for `limit` entries. */
  predicate SlotAnswer(all: seq<Slot>, limit: nat, r: int, entries: seq<TimeRange>)
    requires limit <= |entries|
  {
    if |all| <= limit then r == |all| && SlotsAre(entries[..|all|], all)
    else r == NEED_MORE_BUFFER && SlotsAre(entries[..limit], all[..limit])
  }

  /** The two tests of one page: MAGIC on the flash, then the index byte. */
  method IsListed(fs: Mxfs, layer: nat, block: nat, page: nat, ghost s: L.State) returns (hit: bool)
    requires fs.Shape() && fs.flash.Valid() && L.WellFormed(s) && fs.St() == s && layer < LAYER_MAX
    requires BLOCK_START_DATA_AREA <= block < BLOCK_COUNT && page < PAGE_COUNT
    ensures hit <==> Listed(s, layer, Slot(block, page))
  {
    hit := ReadMagic(fs.flash, block, page);
    if hit {
      assert fs.blocks[block] == s.status[block];
      hit := fs.blocks[block].pages[page] & L.Flag(layer) != 0;
    }
  }

  lemma SlotOf(block: nat, page: nat)
    requires BLOCK_START_DATA_AREA <= block && page < PAGE_COUNT
    ensures SlotAt(PAGE_COUNT * (block - BLOCK_START_DATA_AREA) + page) == Slot(block, page)
  {
  }

  /** Slots before a page, in scan order. */
  function ScanIndex(block: nat, page: nat): nat
    requires BLOCK_START_DATA_AREA <= block
  {
    PAGE_COUNT * (block - BLOCK_START_DATA_AREA) + page
  }

  /** The listing so far is what the caller's array holds. */
  ghost predicate ListedSoFar(s: L.State, layer: nat, k: nat, entries: seq<TimeRange>, cnt: nat)
  {
    && L.WellFormed(s) && layer < LAYER_MAX && k <= SLOT_COUNT && cnt <= |entries|
    && SlotsAre(entries[..cnt], Listing(s, layer, k))
  }

  lemma ListOne(s: L.State, layer: nat, k: nat, before: seq<TimeRange>, after: seq<TimeRange>, cnt: nat)
    requires ListedSoFar(s, layer, k, before, cnt) && k < SLOT_COUNT && cnt < |before| == |after|
    requires Listed(s, layer, SlotAt(k)) && after[..cnt] == before[..cnt]
    requires Slot(after[cnt].block, after[cnt].page) == SlotAt(k) && after[cnt].start == after[cnt].last == 0
    ensures ListedSoFar(s, layer, k + 1, after, cnt + 1)
  {
    assert after[..cnt + 1] == after[..cnt] + [after[cnt]];
  }

  lemma ListNone(s: L.State, layer: nat, k: nat, entries: seq<TimeRange>, cnt: nat)
    requires ListedSoFar(s, layer, k, entries, cnt) && k < SLOT_COUNT && !Listed(s, layer, SlotAt(k))
    ensures ListedSoFar(s, layer, k + 1, entries, cnt)
  {
    EmptyIsNeutral(Listing(s, layer, k));
  }

  /** One page of the scan; `full` when it is listed but the caller's array has no room left. */
  method ListPage(fs: Mxfs, layer: nat, block: nat, page: nat, timerange: array<TimeRange>, limit: nat, cntIn: nat,
                  ghost s: L.State)
    returns (cnt: nat, full: bool)
    requires fs.Shape() && fs.flash.Valid() && fs.St() == s
    requires BLOCK_START_DATA_AREA <= block < BLOCK_COUNT && page < PAGE_COUNT && cntIn <= limit <= timerange.Length
    requires ListedSoFar(s, layer, ScanIndex(block, page), timerange[..], cntIn)
    modifies timerange
    ensures fs.flash.Valid() && fs.St() == s && cnt <= limit
    ensures !full ==> ListedSoFar(s, layer, ScanIndex(block, page) + 1, timerange[..], cnt)
    ensures full ==>
              && cnt == limit && Listed(s, layer, SlotAt(ScanIndex(block, page)))
              && ListedSoFar(s, layer, ScanIndex(block, page), timerange[..], cnt)
  {
    cnt, full := cntIn, false;
    SlotOf(block, page);
    var hit := IsListed(fs, layer, block, page, s);
    if !hit {
      ListNone(s, layer, ScanIndex(block, page), timerange[..], cnt);
    } else if cnt < limit {
      ghost var before := timerange[..];
      timerange[cnt] := timerange[cnt].(block := block, page := page, start := 0, last := 0);
      ListOne(s, layer, ScanIndex(block, page), before, timerange[..], cnt);
      cnt := cnt + 1;
    } else {
      full := true;
    }
  }

  /** The page loop of mxfs_timerange. */
  method ListBlock(fs: Mxfs, layer: nat, block: nat, timerange: array<TimeRange>, limit: nat, cntIn: nat, ghost s: L.State)
    returns (cnt: nat, full: bool, ghost k: nat)
    requires fs.Shape() && fs.flash.Valid() && fs.St() == s
    requires BLOCK_START_DATA_AREA <= block < BLOCK_COUNT && cntIn <= limit <= timerange.Length
    requires ListedSoFar(s, layer, ScanIndex(block, 0), timerange[..], cntIn)
    modifies timerange
    ensures fs.flash.Valid() && fs.St() == s && cnt <= limit
    ensures !full ==> ListedSoFar(s, layer, ScanIndex(block + 1, 0), timerange[..], cnt)
    ensures full ==>
              && cnt == limit && k < SLOT_COUNT
              && ListedSoFar(s, layer, k, timerange[..], cnt) && Listed(s, layer, SlotAt(k))
  {
    cnt, full, k := cntIn, false, 0;
    for page := 0 to PAGE_COUNT
      invariant fs.flash.Valid() && fs.St() == s && cnt <= limit
      invariant ListedSoFar(s, layer, ScanIndex(block, page), timerange[..], cnt)
    {
      cnt, full := ListPage(fs, layer, block, page, timerange, limit, cnt, s);
      if full {
        k := ScanIndex(block, page);
        return;
      }
    }
  }

  lemma ListingOverflows(s: L.State, layer: nat, k: nat, entries: seq<TimeRange>, cnt: nat)
    requires ListedSoFar(s, layer, k, entries, cnt) && k < SLOT_COUNT && Listed(s, layer, SlotAt(k))
    ensures cnt < |Listing(s, layer, SLOT_COUNT)|
    ensures SlotsAre(entries[..cnt], Listing(s, layer, SLOT_COUNT)[..cnt])
  {
    ListingGrows(s, layer, k + 1, SLOT_COUNT);
  }

  /** The block loop of mxfs_timerange. */
  method ListPages(fs: Mxfs, layer: nat, timerange: array<TimeRange>, limit: nat, ghost s: L.State) returns (r: int)
    requires fs.Shape() && fs.flash.Valid() && L.WellFormed(s) && fs.St() == s && layer < LAYER_MAX
    requires limit <= timerange.Length
    modifies timerange
    ensures SlotAnswer(Listing(s, layer, SLOT_COUNT), limit, r, timerange[..])
  {
    var cnt: nat := 0;
    for block := BLOCK_START_DATA_AREA to BLOCK_COUNT
      invariant fs.flash.Valid() && fs.St() == s && cnt <= limit
      invariant ListedSoFar(s, layer, ScanIndex(block, 0), timerange[..], cnt)
    {
      var full;
      ghost var k;
      cnt, full, k := ListBlock(fs, layer, block, timerange, limit, cnt, s);
      if full {
        ListingOverflows(s, layer, k, timerange[..], cnt);
        return NEED_MORE_BUFFER;
      }
    }
    r := cnt;
  }

  /** mxfs_timerange: every data page whose header carries MAGIC and whose index byte has the
      layer's flag, in ascending order; times are reported as 0. */
  method Timerange(fs: Mxfs, layer: nat, timerange: array?<TimeRange>, timerangecount: nat) returns (r: int)
    requires fs.Valid() && layer < LAYER_MAX
    requires timerange != null ==> timerangecount <= timerange.Length
    modifies timerange
    ensures timerange == null || timerangecount == 0 ==> r == ERR
    ensures timerange != null && timerangecount > 0 ==>
              SlotAnswer(Listing(old(fs.St()), layer, SLOT_COUNT), timerangecount, r, timerange[..])
  {
    if timerange == null || timerangecount == 0 {
      return ERR;
    }
    r := ListPages(fs, layer, timerange, timerangecount, fs.St());
  }
}

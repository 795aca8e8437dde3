/** The format byte by byte: what each header bit means to the parsers, what headers a flushed page
    carries, and configuration text. Numbers are written out, no encoder is named. */
module WireFormat {
  import opened Layout
  import opened CompressHeader
  import opened PageFormat
  import opened PageEncoder

  // ----- the 16 bytes of a header

  function ByteAt(b: seq<Byte>, i: nat): nat
    requires i < |b|
  {
    b[i]
  }

  /** Four bytes, least significant first. */
  function WordOf(b: seq<Byte>, i: nat): nat
    requires i + 4 <= |b|
  {
    ByteAt(b, i) + 256 * ByteAt(b, i + 1) + 65536 * ByteAt(b, i + 2) + 16777216 * ByteAt(b, i + 3)
  }

  // The fields of the source's packed structure, bit by bit.
  function CompBit(b: seq<Byte>): nat requires |b| >= 16 { ByteAt(b, 8) % 2 }
  function KindBits(b: seq<Byte>): nat requires |b| >= 16 { ByteAt(b, 8) / 2 % 32 }
  function StepBits(b: seq<Byte>): nat requires |b| >= 16 { ByteAt(b, 8) / 64 + 4 * ByteAt(b, 9) + 1024 * (ByteAt(b, 10) % 64) }
  function MsecBits(b: seq<Byte>): nat requires |b| >= 16 { ByteAt(b, 10) / 64 + 4 * ByteAt(b, 11) }
  function AntLengthBits(b: seq<Byte>): nat requires |b| >= 16 { ByteAt(b, 12) + 256 * (ByteAt(b, 13) % 2) }
  function GyrCountBits(b: seq<Byte>): nat requires |b| >= 16 { ByteAt(b, 12) / 8 + 32 * (ByteAt(b, 13) % 64) }
  function TmpBaseBits(b: seq<Byte>): nat requires |b| >= 16 { ByteAt(b, 12) + 256 * ByteAt(b, 13) }
  function TmpCountBits(b: seq<Byte>): nat requires |b| >= 16 { ByteAt(b, 14) + 256 * ByteAt(b, 15) }

  lemma ThreeParts(w: nat, low: nat, mid: nat, top: nat)
    requires low < 64 && mid < 65536 && w == low + 64 * mid + 4194304 * top
    ensures w % 2 == low % 2 && w / 2 % 32 == low / 2 && w / 64 % 65536 == mid && w / 4194304 == top
  {
    assert w / 64 == mid + 65536 * top;
    assert w / 2 == low / 2 + 32 * (mid + 65536 * top);
    assert w % 2 == low % 2;
  }

  /** The bit field in the third word. */
  lemma BitFieldOnBytes(b0: nat, b1: nat, b2: nat, b3: nat)
    requires b0 < 256 && b1 < 256 && b2 < 256 && b3 < 256
    ensures var w := b0 + 256 * b1 + 65536 * b2 + 16777216 * b3;
            && w % 2 == b0 % 2
            && w / 2 % 32 == b0 / 2 % 32
            && w / 64 % 65536 == b0 / 64 + 4 * b1 + 1024 * (b2 % 64)
            && w / 4194304 == b2 / 64 + 4 * b3
  {
    ThreeParts(b0 + 256 * b1 + 65536 * b2 + 16777216 * b3, b0 % 64, b0 / 64 + 4 * b1 + 1024 * (b2 % 64), b2 / 64 + 4 * b3);
    LowSix(b0);
  }

  lemma LowSix(b: nat)
    ensures b % 64 % 2 == b % 2 && b % 64 / 2 == b / 2 % 32
  {
  }

  lemma AntField(w: nat, low: nat, bit: nat, rest: nat)
    requires low < 256 && bit < 2 && w == low + 256 * bit + 512 * rest
    ensures w % 512 == low + 256 * bit
  {
  }

  lemma GyrField(w: nat, dim: nat, count: nat, rest: nat)
    requires dim < 8 && count < 2048 && w == dim + 8 * count + 16384 * rest
    ensures w / 8 % 2048 == count
  {
    assert w / 8 == count + 2048 * rest;
  }

  /** The three readings of the fourth word. */
  lemma UnionOnBytes(b0: nat, b1: nat, b2: nat, b3: nat)
    requires b0 < 256 && b1 < 256 && b2 < 256 && b3 < 256
    ensures var w := b0 + 256 * b1 + 65536 * b2 + 16777216 * b3;
            && w % 512 == b0 + 256 * (b1 % 2)
            && w / 8 % 2048 == b0 / 8 + 32 * (b1 % 64)
            && w % 65536 == b0 + 256 * b1
            && w / 65536 == b2 + 256 * b3
  {
    var w, high := b0 + 256 * b1 + 65536 * b2 + 16777216 * b3, b2 + 256 * b3;
    AntField(w, b0, b1 % 2, b1 / 2 + 128 * high);
    GyrField(w, b0 % 8, b0 / 8 + 32 * (b1 % 64), b1 / 64 + 4 * high);
    assert w == b0 + 256 * b1 + 65536 * high;
  }

  /** Each field of a header is where the source's packed structure puts it. */
  lemma HeaderOnBytes(b: seq<Byte>)
    requires |b| >= 16
    ensures var h := Unpack(b);
            && h.magic == WordOf(b, 0) && h.time == WordOf(b, 4)
            && h.comp == CompBit(b) && h.kind == KindBits(b) && h.step == StepBits(b) && h.msec == MsecBits(b)
            && AntLength(h) == AntLengthBits(b) && GyrCount(h) == GyrCountBits(b)
            && TmpBase(h) == TmpBaseBits(b) && TmpCount(h) == TmpCountBits(b)
  {
    BitFieldOnBytes(b[8], b[9], b[10], b[11]);
    UnionOnBytes(b[12], b[13], b[14], b[15]);
  }

  /** A walk takes a header for one iff its first four bytes are DE C0 AD DE. */
  predicate MagicBytes(b: seq<Byte>)
  {
    |b| >= 4 && b[0] == 0xDE && b[1] == 0xC0 && b[2] == 0xAD && b[3] == 0xDE
  }

  lemma MagicOnBytes(b: seq<Byte>)
    ensures HasMagic(b) <==> MagicBytes(b)
  {
    if |b| >= 4 {
      assert WordAt(b, 0) == WordOf(b, 0);
    }
  }

  // ----- what mxfs_read makes of a header

  /** Bytes a sensor header makes mxfs_read copy: 18 whatever an ANTP header's length says, six per counted
      record for kinds 3 and 4, two for kind 5. */
  function CopiedBytes(b: seq<Byte>): nat
    requires |b| >= 16
  {
    if KindBits(b) < 3 then 18 else if KindBits(b) < 5 then 6 * GyrCountBits(b) else 2 * TmpCountBits(b)
  }

  /** Bytes it steps over behind the header; an ANTP header has its own length for that. */
  function SteppedBytes(b: seq<Byte>): nat
    requires |b| >= 16
  {
    if KindBits(b) < 3 then AntLengthBits(b) else CopiedBytes(b)
  }

  lemma SensorLengths(b: seq<Byte>)
    requires |b| >= 16 && KindBits(b) < 6
    ensures CopyLength(Unpack(b)) == CopiedBytes(b) && SkipLength(Unpack(b)) == SteppedBytes(b)
    ensures Unpack(b).kind == KindBits(b)
  {
    HeaderOnBytes(b);
  }

  /** One sensor header of mxfs_read. */
  lemma SensorReadOnBytes(rest: seq<Byte>, layer: nat, bufferLen: nat)
    requires |rest| >= 16 && ReadInBounds(rest) && MagicBytes(rest) && KindBits(rest) < 6
    ensures 16 + CopiedBytes(rest) <= |rest| && 16 + SteppedBytes(rest) <= |rest|
    ensures ReadInBounds(rest[16 + SteppedBytes(rest)..])
    ensures ReadWalk(rest, layer, bufferLen)
            == (if KindBits(rest) == layer then rest[16..16 + CopiedBytes(rest)] else [])
               + ReadWalk(rest[16 + SteppedBytes(rest)..], layer, bufferLen)
  {
    MagicOnBytes(rest);
    SensorLengths(rest);
    ReadStep(rest, layer, bufferLen);
  }

  /** Kinds above 6 are stepped over by their header alone. */
  lemma OtherReadOnBytes(rest: seq<Byte>, layer: nat, bufferLen: nat)
    requires |rest| >= 16 && ReadInBounds(rest) && MagicBytes(rest) && KindBits(rest) > 6
    ensures ReadInBounds(rest[16..]) && ReadWalk(rest, layer, bufferLen) == ReadWalk(rest[16..], layer, bufferLen)
  {
    MagicOnBytes(rest);
    HeaderOnBytes(rest);
  }

  /** Without MAGIC the walk is over. */
  lemma NoReadOnBytes(rest: seq<Byte>, layer: nat, bufferLen: nat)
    requires ReadInBounds(rest) && !MagicBytes(rest)
    ensures ReadWalk(rest, layer, bufferLen) == []
  {
    MagicOnBytes(rest);
  }

  /** Configuration text: a header of kind 6 with the text's length in the low half of its last word, the
      text, and anything behind it. mxfs_read of layer 6 delivers the first min(length, bufferLen) bytes
      of the text and stops there; for the other layers it stops with nothing. */
  lemma ConfigText(header: seq<Byte>, text: seq<Byte>, tail: seq<Byte>, layer: nat, bufferLen: nat)
    requires |header| == 16 && MagicBytes(header) && KindBits(header) == 6 && TmpBaseBits(header) == |text|
    ensures var page := header + text + tail;
            && ReadInBounds(page)
            && ReadWalk(page, layer, bufferLen)
               == if layer != 6 then [] else if |text| <= bufferLen then text else text[..bufferLen]
  {
    var page := header + text + tail;
    SameHeader(header, text + tail);
    Associative(header, text, tail);
    HeaderOnBytes(page);
    MagicOnBytes(page);
    ConfigWalk(page, layer, bufferLen);
    TextSlice(header, text, tail, Min(|text|, bufferLen));
    assert text[..|text|] == text;
  }

  lemma SameHeader(header: seq<Byte>, more: seq<Byte>)
    requires |header| == 16
    ensures var page := header + more;
            && (MagicBytes(page) <==> MagicBytes(header))
            && KindBits(page) == KindBits(header) && TmpBaseBits(page) == TmpBaseBits(header)
  {
  }

  lemma ConfigWalk(rest: seq<Byte>, layer: nat, bufferLen: nat)
    requires HasMagic(rest) && |rest| >= HEADER_SIZE && Unpack(rest).kind == 6
    requires HEADER_SIZE + TmpBase(Unpack(rest)) <= |rest|
    ensures ReadInBounds(rest)
    ensures ReadWalk(rest, layer, bufferLen)
            == if layer == 6 then rest[16..16 + Min(TmpBase(Unpack(rest)), bufferLen)] else []
  {
  }

  lemma TextSlice(header: seq<Byte>, text: seq<Byte>, tail: seq<Byte>, n: nat)
    requires n <= |text|
    ensures (header + text + tail)[|header|..|header| + n] == text[..n]
  {
  }

  // ----- what mxfs_timerange_by_block makes of a header

  /** Milliseconds of a header in 64 bits. */
  function HeaderMillis(b: seq<Byte>): nat
    requires |b| >= 16
  {
    1000 * WordOf(b, 4) + MsecBits(b)
  }

  function Times(n: nat, k: nat): nat { n * k }

  /** Records a header of kind 3 to 5 counts. */
  function CountBits(b: seq<Byte>): nat
    requires |b| >= 16
  {
    if KindBits(b) < 5 then GyrCountBits(b) else TmpCountBits(b)
  }

  /** The span after one header of the layer: an ANTP header in 64 bits, any other in 32 bits with the last
      time extrapolated by count times step. A start of 0 is replaced, any other kept. */
  function SpanAfter(b: seq<Byte>, s: Span): Span
    requires |b| >= 16
  {
    var long, short := HeaderMillis(b), HeaderMillis(b) % 0x1_0000_0000;
    if KindBits(b) < 3 then Span(if s.start == 0 then long else s.start, long, s.count + 1)
    else
      Span(if s.start == 0 then short else s.start, short + Times(CountBits(b), StepBits(b)), s.count + CountBits(b))
  }

  lemma AntSpanFields(s: Span, h: Header, millis: nat)
    requires h.kind < 3 && millis == 1000 * h.time + h.msec
    ensures SpanStep(s, h) == Span(if s.start == 0 then millis else s.start, millis, s.count + 1)
  {
  }

  lemma SensorSpanFields(s: Span, h: Header, short: nat, n: nat, step: nat)
    requires 3 <= h.kind < 6 && short == (1000 * h.time + h.msec) % 0x1_0000_0000
    requires n == RecordCount(h) && step == h.step
    ensures SpanStep(s, h) == Span(if s.start == 0 then short else s.start, short + Times(n, step), s.count + n)
  {
  }

  lemma SpanOnBytes(b: seq<Byte>, s: Span)
    requires |b| >= 16 && KindBits(b) < 6
    ensures SpanStep(s, Unpack(b)) == SpanAfter(b, s)
  {
    HeaderOnBytes(b);
    if KindBits(b) < 3 {
      AntSpanFields(s, Unpack(b), HeaderMillis(b));
    } else {
      SensorSpanFields(s, Unpack(b), HeaderMillis(b) % 0x1_0000_0000, CountBits(b), StepBits(b));
    }
  }

  /** One header of the second parser. */
  lemma TimesOnBytes(rest: seq<Byte>, layer: nat, s: Span)
    requires |rest| >= 16 && DataChain(rest) && MagicBytes(rest)
    ensures KindBits(rest) < 6 && 16 + SteppedBytes(rest) <= |rest| && DataChain(rest[16 + SteppedBytes(rest)..])
    ensures TimesWalk(rest, layer, s)
            == TimesWalk(rest[16 + SteppedBytes(rest)..], layer, if KindBits(rest) == layer then SpanAfter(rest, s) else s)
  {
    MagicOnBytes(rest);
    HeaderOnBytes(rest);
    TimesStep(rest, layer, s);
    SensorLengths(rest);
    SpanOnBytes(rest, s);
  }

  // ----- the headers of a flushed page

  /** What mxfs_flush puts into the fields the child's own parsers do not look at, kind by kind: the
      compression bit, the step of an ANTP header, the length 18, the three dimensions and zero bases. */
  predicate FlushedHeader(h: Header)
  {
    && h.msec < 1000
    && (h.kind < 3 ==> h.comp == 0 && h.step == 0 && h.detail == 18)
    && (h.kind == 3 || h.kind == 4 ==> h.comp == 1 && h.detail % 8 == 3 && 0 < h.detail / 8 < 2048)
    && (h.kind == 5 ==> h.comp == 1 && h.detail % 65536 == 0 && h.detail > 0)
  }

  /** The least kind that may follow: ANTP layers have a header per record, the others one. */
  function KindAfter(kind: nat): nat { if kind < 3 then kind else kind + 1 }

  /** Every header of the chain is one mxfs_flush writes, in the order of the layers. */
  predicate FlushedChain(rest: seq<Byte>, least: nat)
    requires DataChain(rest)
    decreases |rest|
  {
    !HasMagic(rest)
    || var h := Unpack(rest);
       && FlushedHeader(h) && least <= h.kind
       && FlushedChain(rest[HEADER_SIZE + SkipLength(h)..], KindAfter(h.kind))
  }

  predicate ChunksFrom(cs: seq<Chunk>, least: nat)
  {
    cs == []
    || (&& FlushedHeader(cs[0].header) && least <= cs[0].header.kind
        && ChunksFrom(cs[1..], KindAfter(cs[0].header.kind)))
  }

  lemma {:induction false} ChunksFromLess(cs: seq<Chunk>, least: nat, less: nat)
    requires ChunksFrom(cs, least) && less <= least
    ensures ChunksFrom(cs, less)
  {
  }

  /** Chunks of kind `below` or less, then chunks from the kind behind it on. */
  lemma {:induction false} ChunksFromConcat(a: seq<Chunk>, b: seq<Chunk>, least: nat, next: nat)
    requires ChunksFrom(a, least) && ChunksFrom(b, next) && least <= next
    requires forall i | 0 <= i < |a| :: KindAfter(a[i].header.kind) <= next
    ensures ChunksFrom(a + b, least)
    decreases |a|
  {
    if a == [] {
      assert a + b == b;
      ChunksFromLess(b, next, least);
    } else {
      TailOfConcat(a, b);
      ChunksFromConcat(a[1..], b, KindAfter(a[0].header.kind), next);
    }
  }

  lemma {:induction false} AntChunksFrom(layer: nat, recs: seq<Rec>)
    requires layer < 3
    ensures ChunksFrom(AntChunks(layer, recs), layer)
    ensures forall i | 0 <= i < |AntChunks(layer, recs)| :: AntChunks(layer, recs)[i].header.kind == layer
  {
    if recs != [] {
      var i := |recs| - 1;
      var c := Chunk(AntHeader(layer, recs[i]), recs[i].payload);
      AntChunksFrom(layer, recs[..i]);
      OneChunkFrom(c, layer);
      ChunksFromConcat(AntChunks(layer, recs[..i]), [c], layer, layer);
    }
  }

  lemma OneChunkFrom(c: Chunk, least: nat)
    requires FlushedHeader(c.header) && least <= c.header.kind
    ensures ChunksFrom([c], least)
  {
    assert [c][1..] == [];
  }

  lemma ThreeDimensions(n: nat)
    requires 0 < n < 2048
    ensures (3 + 8 * (n % 2048)) % 8 == 3 && (3 + 8 * (n % 2048)) / 8 == n
  {
    assert n % 2048 == n;
  }

  lemma Dim3Flushed(layer: nat, recs: seq<Rec>)
    requires 3 <= layer < 5 && 0 < |recs| <= 1000
    ensures FlushedHeader(Dim3Header(layer, recs)) && Dim3Header(layer, recs).kind == layer
  {
    ThreeDimensions(|recs|);
  }

  lemma HighHalf(n: nat)
    requires 0 < n < 65536
    ensures 65536 * (n % 65536) > 0 && 65536 * (n % 65536) % 65536 == 0
  {
    assert n % 65536 == n;
  }

  lemma TemperatureFlushed(recs: seq<Rec>, stale: U64)
    requires 0 < |recs| <= 1000
    ensures FlushedHeader(TemperatureHeader(recs, stale)) && TemperatureHeader(recs, stale).kind == 5
  {
    HighHalf(|recs|);
  }

  lemma LayerChunksFrom(bufs: seq<seq<Rec>>, layer: nat)
    requires Fits(bufs) && layer < LAYER_MAX
    ensures ChunksFrom(LayerChunks(bufs, layer), layer)
    ensures forall i | 0 <= i < |LayerChunks(bufs, layer)| :: LayerChunks(bufs, layer)[i].header.kind == layer
  {
    if layer < LAYER_ANTP_MAX {
      AntChunksFrom(layer, bufs[layer]);
    } else if bufs[layer] != [] {
      LayerIsSmall(bufs, layer);
      if layer < LAYER_TEMPERATURE {
        Dim3Flushed(layer, bufs[layer]);
      } else {
        TemperatureFlushed(bufs[layer], LastTime(bufs, LAYER_TEMPERATURE));
      }
      OneChunkFrom(LayerChunks(bufs, layer)[0], layer);
    }
  }

  lemma KindsOfJoin(a: seq<Chunk>, b: seq<Chunk>, n: nat)
    requires forall i | 0 <= i < |a| :: a[i].header.kind < n
    requires forall i | 0 <= i < |b| :: b[i].header.kind == n
    ensures forall i | 0 <= i < |a + b| :: (a + b)[i].header.kind < n + 1
  {
  }

  lemma {:induction false} ChunksOfFrom(bufs: seq<seq<Rec>>, n: nat)
    requires Fits(bufs) && n <= LAYER_MAX
    ensures ChunksFrom(ChunksOf(bufs, n), 0)
    ensures forall i | 0 <= i < |ChunksOf(bufs, n)| :: ChunksOf(bufs, n)[i].header.kind < n
  {
    if n > 0 {
      ChunksOfFrom(bufs, n - 1);
      LayerChunksFrom(bufs, n - 1);
      ChunksFromConcat(ChunksOf(bufs, n - 1), LayerChunks(bufs, n - 1), 0, n - 1);
      KindsOfJoin(ChunksOf(bufs, n - 1), LayerChunks(bufs, n - 1), n - 1);
    }
  }

  lemma {:induction false} ChainOverChunks(cs: seq<Chunk>, tail: seq<Byte>, least: nat)
    requires AllSound(cs) && ChunksFrom(cs, least) && |tail| >= 4 && !HasMagic(tail)
    ensures DataChain(Serialize(cs) + tail) && FlushedChain(Serialize(cs) + tail, least)
    decreases |cs|
  {
    WalksOverSerialized(cs, tail, 0, 0, EMPTY_SPAN);
    if cs == [] {
      EmptyIsNeutral(tail);
    } else {
      ChainOverChunks(cs[1..], tail, KindAfter(cs[0].header.kind));
      HeadOfSerialized(cs[0], Serialize(cs[1..]) + tail);
      Associative(Pack(cs[0].header) + cs[0].payload, Serialize(cs[1..]), tail);
    }
  }

  /** The headers of every flushed page. */
  lemma FlushedPageHeaders(bufs: seq<seq<Rec>>)
    requires Fits(bufs)
    ensures var page := Padded(PageImage(bufs));
            |page| == 2048 && DataChain(page) && FlushedChain(page, 0)
  {
    ChunksOfSound(bufs, LAYER_MAX);
    ChunksOfFrom(bufs, LAYER_MAX);
    var tail := Repeat<Byte>(0xFF, PAGE_SIZE - |PageImage(bufs)|);
    assert tail[0] == 0xFF;
    ChainOverChunks(ChunksOf(bufs, LAYER_MAX), tail, 0);
  }
}

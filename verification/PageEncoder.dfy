/** What mxfs_flush writes for given layer buffers (sw/child/src/mxfs_flush.cc:55-203),
    and what the two parsers get back from such a page. */
module PageEncoder {
  import opened Layout
  import opened CompressHeader
  import opened PageFormat

  /** One buffered record: its append time in milliseconds and its bytes. */
  datatype Rec = Rec(time: U64, payload: seq<Byte>)

  predicate RecsOk(layer: nat, recs: seq<Rec>)
  {
    forall i | 0 <= i < |recs| :: |recs[i].payload| == RecordSize(layer)
  }

  predicate BufsOk(bufs: seq<seq<Rec>>)
  {
    |bufs| == LAYER_MAX && forall l | 0 <= l < LAYER_MAX :: RecsOk(l, bufs[l])
  }

  /** Size of one layer on the page: a header per ANTP record, else one header per non-empty layer. */
  function LayerLength(layer: nat, count: nat): nat
  {
    if layer < LAYER_ANTP_MAX then count * ANTP_RECORD_SIZE + HEADER_SIZE * count
    else if count == 0 then 0
    else count * RecordSize(layer) + HEADER_SIZE
  }

  function TotalLength(bufs: seq<seq<Rec>>, n: nat): nat
    requires n <= |bufs|
  {
    if n == 0 then 0 else TotalLength(bufs, n - 1) + LayerLength(n - 1, |bufs[n - 1]|)
  }

  /** The bound mxfs_append maintains for mxfs_flush. */
  predicate Fits(bufs: seq<seq<Rec>>)
  {
    BufsOk(bufs) && TotalLength(bufs, LAYER_MAX) <= 2000
  }

  predicate AllEmpty(bufs: seq<seq<Rec>>)
  {
    forall l | 0 <= l < |bufs| :: bufs[l] == []
  }

  function Payloads(recs: seq<Rec>): seq<Byte>
  {
    if recs == [] then [] else Payloads(recs[..|recs| - 1]) + recs[|recs| - 1].payload
  }

  // ----- headers, field by field as mxfs_flush fills them

  function Seconds(t: U64): U32 { t / 1000 % U32_RANGE }

  /** The average gap stored in a header: 64-bit difference, 32-bit quotient, saturated to 16 bits. */
  function StepOf(first: U64, last: U64, count: nat): (step: nat)
    requires count > 0
    ensures step <= 0xFFFF
  {
    Min((last - first) % U64_RANGE / count % U32_RANGE, 0xFFFF)
  }

  function AntHeader(layer: nat, rec: Rec): Header
  {
    Header(MAGIC, Seconds(rec.time), 0, layer, 0, rec.time % 1000, ANTP_RECORD_SIZE)
  }

  function Dim3Header(layer: nat, recs: seq<Rec>): Header
    requires recs != []
  {
    var n := |recs|;
    Header(MAGIC, Seconds(recs[0].time), 1, layer, StepOf(recs[0].time, recs[n - 1].time, n),
           recs[0].time % 1000, 3 + 8 * (n % 0x800))
  }

  /** The temperature header takes its last time from the second record onwards;
      with a single record it is the one an earlier layer left behind. */
  function TemperatureLast(recs: seq<Rec>, stale: U64): U64
    requires recs != []
  {
    if |recs| == 1 then stale else recs[|recs| - 1].time
  }

  function TemperatureHeader(recs: seq<Rec>, stale: U64): Header
    requires recs != []
  {
    var n := |recs|;
    Header(MAGIC, Seconds(recs[0].time), 1, LAYER_TEMPERATURE,
           StepOf(recs[0].time, TemperatureLast(recs, stale), n),
           recs[0].time % 1000, 0x1_0000 * (n % 0x1_0000))
  }

  /** The last time seen while the first `n` layers were copied, 0 when all are empty. */
  function LastTime(bufs: seq<seq<Rec>>, n: nat): U64
    requires n <= |bufs|
  {
    if n == 0 then 0
    else if bufs[n - 1] != [] then bufs[n - 1][|bufs[n - 1]| - 1].time
    else LastTime(bufs, n - 1)
  }

  function AntChunks(layer: nat, recs: seq<Rec>): seq<Chunk>
  {
    if recs == [] then []
    else
      var i := |recs| - 1;
      AntChunks(layer, recs[..i]) + [Chunk(AntHeader(layer, recs[i]), recs[i].payload)]
  }

  function LayerChunks(bufs: seq<seq<Rec>>, layer: nat): seq<Chunk>
    requires layer < LAYER_MAX == |bufs|
  {
    var recs := bufs[layer];
    if layer < LAYER_ANTP_MAX then AntChunks(layer, recs)
    else if recs == [] then []
    else if layer < LAYER_TEMPERATURE then [Chunk(Dim3Header(layer, recs), Payloads(recs))]
    else [Chunk(TemperatureHeader(recs, LastTime(bufs, LAYER_TEMPERATURE)), Payloads(recs))]
  }

  function Join(layers: seq<seq<Chunk>>, n: nat): seq<Chunk>
    requires n <= |layers|
  {
    if n == 0 then [] else Join(layers, n - 1) + layers[n - 1]
  }

  function LayersOf(bufs: seq<seq<Rec>>): seq<seq<Chunk>>
    requires |bufs| == LAYER_MAX
  {
    seq(LAYER_MAX, l requires 0 <= l < LAYER_MAX => LayerChunks(bufs, l))
  }

  /** The chunks of the first `n` layers, in page order. */
  function ChunksOf(bufs: seq<seq<Rec>>, n: nat): seq<Chunk>
    requires n <= LAYER_MAX == |bufs|
  {
    Join(LayersOf(bufs), n)
  }

  // ----- soundness and size

  lemma {:induction false} PayloadsLength(layer: nat, recs: seq<Rec>)
    requires RecsOk(layer, recs)
    ensures |Payloads(recs)| == |recs| * RecordSize(layer)
  {
    if recs != [] {
      PayloadsLength(layer, recs[..|recs| - 1]);
    }
  }

  lemma SerializeOne(c: Chunk)
    requires Sound(c)
    ensures AllSound([c]) && Serialize([c]) == Pack(c.header) + c.payload
  {
    assert [c][1..] == [];
    assert Serialize([c]) == Pack(c.header) + c.payload + Serialize([c][1..]);
  }

  lemma {:induction false} AntChunksSound(layer: nat, recs: seq<Rec>)
    requires layer < LAYER_ANTP_MAX && RecsOk(layer, recs)
    ensures AllSound(AntChunks(layer, recs))
    ensures |Serialize(AntChunks(layer, recs))| == LayerLength(layer, |recs|)
  {
    if recs != [] {
      var i := |recs| - 1;
      AntChunksSound(layer, recs[..i]);
      var c := Chunk(AntHeader(layer, recs[i]), recs[i].payload);
      SerializeOne(c);
      SerializeConcat(AntChunks(layer, recs[..i]), [c]);
    }
  }

  lemma CountKept(n: nat)
    requires n < 0x800
    ensures (3 + 8 * (n % 0x800)) / 8 % 0x800 == n
  {
    assert n % 0x800 == n;
  }

  lemma Dim3ChunkSound(layer: nat, recs: seq<Rec>)
    requires LAYER_ANTP_MAX <= layer < LAYER_TEMPERATURE && RecsOk(layer, recs) && 0 < |recs| < 0x800
    ensures Sound(Chunk(Dim3Header(layer, recs), Payloads(recs)))
  {
    PayloadsLength(layer, recs);
    CountKept(|recs|);
    assert GyrCount(Dim3Header(layer, recs)) == |recs|;
  }

  lemma WideCountKept(n: nat)
    requires n < 0x1_0000
    ensures 0x1_0000 * (n % 0x1_0000) / 0x1_0000 == n
  {
    assert n % 0x1_0000 == n;
  }

  lemma TemperatureChunkSound(recs: seq<Rec>, stale: U64)
    requires RecsOk(LAYER_TEMPERATURE, recs) && 0 < |recs| < 0x1_0000
    ensures Sound(Chunk(TemperatureHeader(recs, stale), Payloads(recs)))
  {
    PayloadsLength(LAYER_TEMPERATURE, recs);
    WideCountKept(|recs|);
    assert TmpCount(TemperatureHeader(recs, stale)) == |recs|;
  }

  lemma LayerChunksSound(bufs: seq<seq<Rec>>, layer: nat)
    requires BufsOk(bufs) && layer < LAYER_MAX
    requires |bufs[layer]| < 0x800
    ensures AllSound(LayerChunks(bufs, layer))
    ensures |Serialize(LayerChunks(bufs, layer))| == LayerLength(layer, |bufs[layer]|)
  {
    var recs := bufs[layer];
    if layer < LAYER_ANTP_MAX {
      AntChunksSound(layer, recs);
    } else if recs != [] {
      PayloadsLength(layer, recs);
      var c := LayerChunks(bufs, layer)[0];
      if layer < LAYER_TEMPERATURE {
        Dim3ChunkSound(layer, recs);
      } else {
        TemperatureChunkSound(recs, LastTime(bufs, LAYER_TEMPERATURE));
      }
      SerializeOne(c);
    }
  }

  lemma {:induction false} TotalLengthMonotone(bufs: seq<seq<Rec>>, m: nat, n: nat)
    requires m <= n <= |bufs|
    ensures TotalLength(bufs, m) <= TotalLength(bufs, n)
    decreases n
  {
    if m < n {
      TotalLengthMonotone(bufs, m, n - 1);
    }
  }

  lemma LayerIsSmall(bufs: seq<seq<Rec>>, layer: nat)
    requires Fits(bufs) && layer < LAYER_MAX
    ensures LayerLength(layer, |bufs[layer]|) <= 2000
    ensures |bufs[layer]| <= 1000
  {
    TotalLengthMonotone(bufs, layer + 1, LAYER_MAX);
  }

  lemma {:induction false} JoinSound(layers: seq<seq<Chunk>>, bufs: seq<seq<Rec>>, n: nat)
    requires n <= |layers| == |bufs|
    requires forall l | 0 <= l < n ::
               AllSound(layers[l]) && |Serialize(layers[l])| == LayerLength(l, |bufs[l]|)
    ensures AllSound(Join(layers, n)) && |Serialize(Join(layers, n))| == TotalLength(bufs, n)
  {
    if n > 0 {
      JoinSound(layers, bufs, n - 1);
      SerializeConcat(Join(layers, n - 1), layers[n - 1]);
    }
  }

  /** Size accounting: the length mxfs_append computes from the counts is the length of what
      mxfs_flush emits, layer by layer. */
  lemma ChunksOfSound(bufs: seq<seq<Rec>>, n: nat)
    requires Fits(bufs) && n <= LAYER_MAX
    ensures AllSound(ChunksOf(bufs, n))
    ensures |Serialize(ChunksOf(bufs, n))| == TotalLength(bufs, n)
  {
    forall l | 0 <= l < n
      ensures AllSound(LayersOf(bufs)[l]) && |Serialize(LayersOf(bufs)[l])| == LayerLength(l, |bufs[l]|)
    {
      LayerIsSmall(bufs, l);
      LayerChunksSound(bufs, l);
    }
    JoinSound(LayersOf(bufs), bufs, n);
  }

  /** The bytes mxfs_flush hands to the driver. */
  function PageImage(bufs: seq<seq<Rec>>): (image: seq<Byte>)
    requires Fits(bufs)
    ensures |image| == TotalLength(bufs, LAYER_MAX) <= 2000
  {
    ChunksOfSound(bufs, LAYER_MAX);
    Serialize(ChunksOf(bufs, LAYER_MAX))
  }

  function BlankPage(): (page: seq<Byte>)
    ensures |page| == PAGE_SIZE && page[0] == 0xFF
  {
    Repeat<Byte>(0xFF, PAGE_SIZE)
  }

  /** The page that results from programming `image` into a blank page. */
  function Padded(image: seq<Byte>): (page: seq<Byte>)
    requires |image| <= PAGE_SIZE
    ensures |page| == PAGE_SIZE
  {
    image + Repeat<Byte>(0xFF, PAGE_SIZE - |image|)
  }

  // ----- what the parsers get back

  lemma {:induction false} AntChunksPayload(layer: nat, recs: seq<Rec>, wanted: nat)
    ensures PayloadOf(AntChunks(layer, recs), wanted) == if wanted == layer then Payloads(recs) else []
  {
    if recs != [] {
      var i := |recs| - 1;
      var c := Chunk(AntHeader(layer, recs[i]), recs[i].payload);
      AntChunksPayload(layer, recs[..i], wanted);
      PayloadOfConcat(AntChunks(layer, recs[..i]), [c], wanted);
      assert [c][1..] == [];
    }
  }

  lemma LayerChunksPayload(bufs: seq<seq<Rec>>, layer: nat, wanted: nat)
    requires layer < LAYER_MAX == |bufs|
    ensures PayloadOf(LayerChunks(bufs, layer), wanted) == if wanted == layer then Payloads(bufs[layer]) else []
  {
    if layer < LAYER_ANTP_MAX {
      AntChunksPayload(layer, bufs[layer], wanted);
    } else if bufs[layer] != [] {
      var cs := LayerChunks(bufs, layer);
      assert cs[1..] == [] && cs[0].header.kind == layer;
      assert PayloadOf(cs[1..], wanted) == [];
    }
  }

  lemma SilentPart(a: seq<Chunk>, b: seq<Chunk>, wanted: nat)
    ensures PayloadOf(a, wanted) == [] ==> PayloadOf(a + b, wanted) == PayloadOf(b, wanted)
    ensures PayloadOf(b, wanted) == [] ==> PayloadOf(a + b, wanted) == PayloadOf(a, wanted)
  {
    PayloadOfConcat(a, b, wanted);
    EmptyIsNeutral(PayloadOf(a, wanted));
    EmptyIsNeutral(PayloadOf(b, wanted));
  }

  lemma {:induction false} JoinPayload(layers: seq<seq<Chunk>>, n: nat, wanted: nat)
    requires n <= |layers|
    requires forall l | 0 <= l < n && l != wanted :: PayloadOf(layers[l], wanted) == []
    ensures PayloadOf(Join(layers, n), wanted) == if wanted < n then PayloadOf(layers[wanted], wanted) else []
  {
    if n > 0 {
      JoinPayload(layers, n - 1, wanted);
      SilentPart(Join(layers, n - 1), layers[n - 1], wanted);
    }
  }

  lemma ChunksOfPayload(bufs: seq<seq<Rec>>, n: nat, wanted: nat)
    requires n <= LAYER_MAX == |bufs|
    ensures PayloadOf(ChunksOf(bufs, n), wanted) == if wanted < n then Payloads(bufs[wanted]) else []
  {
    forall l | 0 <= l < n
      ensures PayloadOf(LayersOf(bufs)[l], wanted) == if wanted == l then Payloads(bufs[l]) else []
    {
      LayerChunksPayload(bufs, l, wanted);
    }
    JoinPayload(LayersOf(bufs), n, wanted);
  }

  /** Page round trip: from a page flushed over blank flash both parsers see exactly the
      buffered layers, for arbitrary payload bytes, and stop exactly at the encoded length. */
  lemma PageRoundTrip(bufs: seq<seq<Rec>>, layer: nat, bufferLen: nat, s: Span)
    requires Fits(bufs) && layer < LAYER_MAX
    ensures var page := Padded(PageImage(bufs));
            && DataChain(page)
            && ReadInBounds(page)
            && ReadWalk(page, layer, bufferLen) == Payloads(bufs[layer])
            && TimesWalk(page, layer, s) == SpanOf(ChunksOf(bufs, LAYER_MAX), layer, s)
            && WalkLength(page) == TotalLength(bufs, LAYER_MAX)
  {
    ChunksOfSound(bufs, LAYER_MAX);
    var tail := Repeat<Byte>(0xFF, PAGE_SIZE - |PageImage(bufs)|);
    assert tail[0] == 0xFF;
    WalksOverSerialized(ChunksOf(bufs, LAYER_MAX), tail, layer, bufferLen, s);
    ChunksOfPayload(bufs, LAYER_MAX, layer);
  }

  lemma BlankPageHasNoRecords(layer: nat, bufferLen: nat, s: Span)
    ensures DataChain(BlankPage()) && ReadInBounds(BlankPage()) && !HasMagic(BlankPage())
    ensures ReadWalk(BlankPage(), layer, bufferLen) == [] && TimesWalk(BlankPage(), layer, s) == s
  {
    assert BlankPage()[0] == 0xFF;
  }
}

/** The page format and its two parsers on values: `ReadWalk` is the walk of
    sw/child/src/mxfs_read.cc, `TimesWalk` that of mxfs_timerange_by_block. A page
    has no length field: a walk stops at the first header without MAGIC. */
module PageFormat {
  import opened Layout
  import opened CompressHeader

  datatype Chunk = Chunk(header: Header, payload: seq<Byte>)

  // What mxfs_timerange_by_block accumulates over one page.
  datatype Span = Span(start: nat, last: nat, count: nat)

  const EMPTY_SPAN := Span(0, 0, 0)

  predicate HasMagic(b: seq<Byte>)
  {
    |b| >= 4 && WordAt(b, 0) == MAGIC
  }

  /** Bytes the walks step over after a header. */
  function SkipLength(h: Header): nat
  {
    if h.kind < LAYER_ANTP_MAX then AntLength(h)
    else if h.kind < LAYER_TEMPERATURE then GyrCount(h) * GYRO_RECORD_SIZE
    else if h.kind == LAYER_TEMPERATURE then TmpCount(h) * TEMPERATURE_RECORD_SIZE
    else 0
  }

  /** Bytes mxfs_read copies after a header; for ANTP this is a constant, not the header's length. */
  function CopyLength(h: Header): nat
  {
    if h.kind < LAYER_ANTP_MAX then ANTP_RECORD_SIZE else SkipLength(h)
  }

  function RecordCount(h: Header): nat
  {
    if h.kind < LAYER_ANTP_MAX then 1
    else if h.kind < LAYER_TEMPERATURE then GyrCount(h)
    else TmpCount(h)
  }

  /** mxfs_read on `rest` touches no byte past its end. */
  predicate ReadInBounds(rest: seq<Byte>)
    decreases |rest|
  {
    |rest| == 0
    || (&& |rest| >= 4
        && (HasMagic(rest) ==>
              && |rest| >= HEADER_SIZE
              && var h := Unpack(rest);
              if h.kind < LAYER_CONFIG then
                && HEADER_SIZE + CopyLength(h) <= |rest|
                && HEADER_SIZE + SkipLength(h) <= |rest|
                && ReadInBounds(rest[HEADER_SIZE + SkipLength(h)..])
              else if h.kind == LAYER_CONFIG then HEADER_SIZE + TmpBase(h) <= |rest|
              else ReadInBounds(rest[HEADER_SIZE..])))
  }

  /** The same with sensor layers only, as pages of the data area hold them. */
  predicate DataChain(rest: seq<Byte>)
    decreases |rest|
  {
    |rest| == 0
    || (&& |rest| >= 4
        && (HasMagic(rest) ==>
              && |rest| >= HEADER_SIZE
              && var h := Unpack(rest);
              && h.kind < LAYER_MAX
              && HEADER_SIZE + CopyLength(h) <= |rest|
              && HEADER_SIZE + SkipLength(h) <= |rest|
              && DataChain(rest[HEADER_SIZE + SkipLength(h)..])))
  }

  lemma {:induction false} DataChainInBounds(rest: seq<Byte>)
    requires DataChain(rest)
    ensures ReadInBounds(rest)
    decreases |rest|
  {
    if HasMagic(rest) {
      DataChainInBounds(rest[HEADER_SIZE + SkipLength(Unpack(rest))..]);
    }
  }

  function ReadWalk(rest: seq<Byte>, layer: nat, bufferLen: nat): seq<Byte>
    requires ReadInBounds(rest)
    decreases |rest|
  {
    if !HasMagic(rest) then []
    else
      var h := Unpack(rest);
      if h.kind < LAYER_CONFIG then
        (if h.kind == layer then rest[HEADER_SIZE..HEADER_SIZE + CopyLength(h)] else [])
        + ReadWalk(rest[HEADER_SIZE + SkipLength(h)..], layer, bufferLen)
      else if h.kind == LAYER_CONFIG then
        if h.kind == layer then rest[HEADER_SIZE..HEADER_SIZE + Min(TmpBase(h), bufferLen)] else []
      else ReadWalk(rest[HEADER_SIZE..], layer, bufferLen)
  }

  /** 32-bit milliseconds of a gyro, accelerometer or temperature header. */
  function Millis32(h: Header): nat
  {
    (h.time * 1000 + h.msec) % U32_RANGE
  }

  function Millis64(h: Header): nat
  {
    h.time * 1000 + h.msec
  }

  /** What one header adds to the span of a layer; a start of 0 counts as not yet set. */
  function SpanStep(s: Span, h: Header): Span
  {
    if h.kind < LAYER_ANTP_MAX then
      Span(if s.start == 0 then Millis64(h) else s.start, Millis64(h), s.count + 1)
    else
      Span(if s.start == 0 then Millis32(h) else s.start,
           Millis32(h) + RecordCount(h) * h.step,
           s.count + RecordCount(h))
  }

  function TimesWalk(rest: seq<Byte>, layer: nat, s: Span): Span
    requires DataChain(rest)
    decreases |rest|
  {
    if !HasMagic(rest) then s
    else
      var h := Unpack(rest);
      TimesWalk(rest[HEADER_SIZE + SkipLength(h)..], layer, if h.kind == layer then SpanStep(s, h) else s)
  }

  /** One header of the walk of mxfs_timerange_by_block. */
  lemma TimesStep(rest: seq<Byte>, layer: nat, s: Span)
    requires DataChain(rest) && HasMagic(rest)
    ensures |rest| >= HEADER_SIZE && Unpack(rest).kind < LAYER_MAX
    ensures var h := Unpack(rest);
            && HEADER_SIZE + SkipLength(h) <= |rest|
            && DataChain(rest[HEADER_SIZE + SkipLength(h)..])
            && TimesWalk(rest, layer, s)
               == TimesWalk(rest[HEADER_SIZE + SkipLength(h)..], layer, if h.kind == layer then SpanStep(s, h) else s)
  {
  }

  /** The same step onto the rest of the chain by name. */
  lemma TimesStepTo(rest: seq<Byte>, next: seq<Byte>, layer: nat, s: Span, s': Span)
    requires DataChain(rest) && HasMagic(rest) && |rest| >= HEADER_SIZE
    requires HEADER_SIZE + SkipLength(Unpack(rest)) <= |rest| && next == rest[HEADER_SIZE + SkipLength(Unpack(rest))..]
    requires s' == if Unpack(rest).kind == layer then SpanStep(s, Unpack(rest)) else s
    ensures Unpack(rest).kind < LAYER_MAX && DataChain(next)
    ensures TimesWalk(rest, layer, s) == TimesWalk(next, layer, s')
  {
    TimesStep(rest, layer, s);
  }

  /** One sensor header of the walk of mxfs_read. */
  lemma ReadStep(rest: seq<Byte>, layer: nat, bufferLen: nat)
    requires ReadInBounds(rest) && HasMagic(rest) && Unpack(rest).kind < LAYER_CONFIG
    ensures var h := Unpack(rest);
            && HEADER_SIZE + CopyLength(h) <= |rest|
            && HEADER_SIZE + SkipLength(h) <= |rest|
            && ReadInBounds(rest[HEADER_SIZE + SkipLength(h)..])
            && ReadWalk(rest, layer, bufferLen)
               == (if h.kind == layer then rest[HEADER_SIZE..HEADER_SIZE + CopyLength(h)] else [])
                  + ReadWalk(rest[HEADER_SIZE + SkipLength(h)..], layer, bufferLen)
  {
  }

  /** How many bytes that step contributes. */
  lemma ReadLengthStep(rest: seq<Byte>, next: seq<Byte>, layer: nat, bufferLen: nat)
    requires ReadInBounds(rest) && HasMagic(rest) && Unpack(rest).kind < LAYER_CONFIG
    requires HEADER_SIZE + SkipLength(Unpack(rest)) <= |rest| && next == rest[HEADER_SIZE + SkipLength(Unpack(rest))..]
    ensures ReadInBounds(next)
    ensures |ReadWalk(rest, layer, bufferLen)|
            == (if Unpack(rest).kind == layer then CopyLength(Unpack(rest)) else 0) + |ReadWalk(next, layer, bufferLen)|
  {
    ReadStep(rest, layer, bufferLen);
  }

  /** The bytes one header makes mxfs_read copy against the records it makes the other parser count. */
  lemma AgreeOnHeader(h: Header, layer: nat, s: Span)
    requires h.kind < LAYER_MAX && layer < LAYER_MAX
    ensures (if h.kind == layer then CopyLength(h) else 0)
            == ((if h.kind == layer then SpanStep(s, h) else s).count - s.count) * RecordSize(layer)
  {
  }

  lemma SumOfProducts(x: int, y: int, a: int, b: int, c: int, k: int)
    requires x == (a - b) * k && y == (b - c) * k
    ensures x + y == (a - c) * k
  {
  }

  /** One header on both sides of the account. */
  lemma AgreeNumbers(h: Header, layer: nat, s: Span, s': Span, read: nat, readNext: nat, count: int)
    requires h.kind < LAYER_MAX && layer < LAYER_MAX && s' == if h.kind == layer then SpanStep(s, h) else s
    requires read == (if h.kind == layer then CopyLength(h) else 0) + readNext
    requires readNext == (count - s'.count) * RecordSize(layer)
    ensures read == (count - s.count) * RecordSize(layer)
  {
    AgreeOnHeader(h, layer, s);
    SumOfProducts(readNext, if h.kind == layer then CopyLength(h) else 0, count, s'.count, s.count, RecordSize(layer));
  }

  /** The two parsers agree on every chain of sensor headers. */
  lemma {:induction false} ParsersAgree(rest: seq<Byte>, layer: nat, bufferLen: nat, s: Span)
    requires DataChain(rest) && ReadInBounds(rest) && layer < LAYER_MAX
    ensures |ReadWalk(rest, layer, bufferLen)| == (TimesWalk(rest, layer, s).count - s.count) * RecordSize(layer)
    decreases |rest|
  {
    if HasMagic(rest) {
      var h := Unpack(rest);
      var next, s' := rest[HEADER_SIZE + SkipLength(h)..], if h.kind == layer then SpanStep(s, h) else s;
      TimesStepTo(rest, next, layer, s, s');
      ReadLengthStep(rest, next, layer, bufferLen);
      ParsersAgree(next, layer, bufferLen, s');
      AgreeNumbers(h, layer, s, s', |ReadWalk(rest, layer, bufferLen)|, |ReadWalk(next, layer, bufferLen)|,
                   TimesWalk(next, layer, s').count);
    }
  }

  /** No header at the front: bytes behind change nothing. */
  lemma PadNoHeader(rest: seq<Byte>, pad: seq<Byte>)
    requires |rest| >= 4 && !HasMagic(rest)
    ensures !HasMagic(rest + pad) && DataChain(rest + pad)
  {
    assert WordAt(rest + pad, 0) == WordAt(rest, 0);
  }

  lemma DropPadded(rest: seq<Byte>, pad: seq<Byte>, n: nat)
    requires n <= |rest|
    ensures (rest + pad)[n..] == rest[n..] + pad
  {
  }

  /** A header at the front is stepped over the same way. */
  lemma PadHeader(rest: seq<Byte>, pad: seq<Byte>, next: seq<Byte>)
    requires DataChain(rest) && HasMagic(rest) && |rest| >= HEADER_SIZE
    requires HEADER_SIZE + SkipLength(Unpack(rest)) <= |rest| && next == rest[HEADER_SIZE + SkipLength(Unpack(rest))..]
    requires DataChain(next + pad)
    ensures HasMagic(rest + pad) && Unpack(rest + pad) == Unpack(rest) && DataChain(rest + pad)
    ensures (rest + pad)[HEADER_SIZE + SkipLength(Unpack(rest))..] == next + pad
  {
    SamePrefix(rest, pad);
    DropPadded(rest, pad, HEADER_SIZE + SkipLength(Unpack(rest)));
  }

  /** The zeros behind the page in the 2112-byte buffer of mxfs_timerange_by_block change nothing. */
  lemma {:induction false} TimesWalkPadded(rest: seq<Byte>, pad: seq<Byte>, layer: nat, s: Span)
    requires DataChain(rest) && |pad| >= 4 && !HasMagic(pad)
    ensures DataChain(rest + pad) && TimesWalk(rest + pad, layer, s) == TimesWalk(rest, layer, s)
    decreases |rest|
  {
    if |rest| == 0 {
      EmptyIsNeutral(pad);
      assert rest + pad == pad;
    } else if HasMagic(rest) {
      var h := Unpack(rest);
      var next, s' := rest[HEADER_SIZE + SkipLength(h)..], if h.kind == layer then SpanStep(s, h) else s;
      TimesWalkPadded(next, pad, layer, s');
      PadHeader(rest, pad, next);
      TimesStepTo(rest, next, layer, s, s');
      TimesStepTo(rest + pad, next + pad, layer, s, s');
    } else {
      PadNoHeader(rest, pad);
    }
  }

  lemma SamePrefix(rest: seq<Byte>, pad: seq<Byte>)
    requires |rest| >= HEADER_SIZE
    ensures Unpack(rest + pad) == Unpack(rest) && HasMagic(rest + pad) == HasMagic(rest)
  {
    var all := rest + pad;
    assert forall i | 0 <= i < HEADER_SIZE :: all[i] == rest[i];
    assert WordAt(all, 0) == WordAt(rest, 0) && WordAt(all, 4) == WordAt(rest, 4)
        && WordAt(all, 8) == WordAt(rest, 8) && WordAt(all, 12) == WordAt(rest, 12);
  }

  /** How many bytes a walk consumes before it stops. */
  function WalkLength(rest: seq<Byte>): nat
    requires DataChain(rest)
    decreases |rest|
  {
    if !HasMagic(rest) then 0
    else
      var n := HEADER_SIZE + SkipLength(Unpack(rest));
      n + WalkLength(rest[n..])
  }

  // ----- pages as sequences of chunks

  /** A chunk whose payload is as long as its header says. */
  predicate Sound(c: Chunk)
  {
    && FieldsFit(c.header)
    && c.header.magic == MAGIC
    && c.header.kind < LAYER_MAX
    && |c.payload| == SkipLength(c.header) == CopyLength(c.header)
  }

  predicate AllSound(cs: seq<Chunk>)
  {
    forall i | 0 <= i < |cs| :: Sound(cs[i])
  }

  function Serialize(cs: seq<Chunk>): seq<Byte>
    requires AllSound(cs)
  {
    if cs == [] then [] else Pack(cs[0].header) + cs[0].payload + Serialize(cs[1..])
  }

  function PayloadOf(cs: seq<Chunk>, layer: nat): seq<Byte>
  {
    if cs == [] then []
    else (if cs[0].header.kind == layer then cs[0].payload else []) + PayloadOf(cs[1..], layer)
  }

  function SpanOf(cs: seq<Chunk>, layer: nat, s: Span): Span
  {
    if cs == [] then s
    else SpanOf(cs[1..], layer, if cs[0].header.kind == layer then SpanStep(s, cs[0].header) else s)
  }

  lemma {:induction false} SerializeConcat(a: seq<Chunk>, b: seq<Chunk>)
    requires AllSound(a) && AllSound(b)
    ensures AllSound(a + b) && Serialize(a + b) == Serialize(a) + Serialize(b)
  {
    if a == [] {
      assert a + b == b;
    } else {
      TailOfConcat(a, b);
      SerializeConcat(a[1..], b);
      Associative(Pack(a[0].header) + a[0].payload, Serialize(a[1..]), Serialize(b));
    }
  }

  lemma {:induction false} PayloadOfConcat(a: seq<Chunk>, b: seq<Chunk>, layer: nat)
    ensures PayloadOf(a + b, layer) == PayloadOf(a, layer) + PayloadOf(b, layer)
  {
    if a == [] {
      assert a + b == b;
    } else {
      TailOfConcat(a, b);
      PayloadOfConcat(a[1..], b, layer);
      Associative(if a[0].header.kind == layer then a[0].payload else [], PayloadOf(a[1..], layer), PayloadOf(b, layer));
    }
  }

  lemma {:induction false} SpanOfConcat(a: seq<Chunk>, b: seq<Chunk>, layer: nat, s: Span)
    ensures SpanOf(a + b, layer, s) == SpanOf(b, layer, SpanOf(a, layer, s))
    decreases |a|
  {
    if a == [] {
      assert a + b == b;
    } else {
      SpanOfConcat(a[1..], b, layer, if a[0].header.kind == layer then SpanStep(s, a[0].header) else s);
      TailOfConcat(a, b);
    }
  }

  /** One step of any walk over a sound chunk: the header is recovered, the payload is
      skipped by its own length (whatever bytes it holds) and the rest is what was appended. */
  lemma HeadOfSerialized(c: Chunk, more: seq<Byte>)
    requires Sound(c)
    ensures var all := Pack(c.header) + c.payload + more;
            && HasMagic(all)
            && Unpack(all) == c.header
            && all[HEADER_SIZE..HEADER_SIZE + CopyLength(c.header)] == c.payload
            && all[HEADER_SIZE + SkipLength(c.header)..] == more
  {
    var all := Pack(c.header) + c.payload + more;
    assert all == Pack(c.header) + (c.payload + more);
    UnpackOfPack(c.header, c.payload + more);
    assert WordAt(all, 0) == Unpack(all).magic;
  }

  /** Both walks over a sound chunk followed by a chain. */
  lemma WalksOverChunk(c: Chunk, more: seq<Byte>, layer: nat, bufferLen: nat, s: Span)
    requires Sound(c) && DataChain(more) && ReadInBounds(more)
    ensures var all := Pack(c.header) + c.payload + more;
            && DataChain(all)
            && ReadInBounds(all)
            && ReadWalk(all, layer, bufferLen)
               == (if c.header.kind == layer then c.payload else []) + ReadWalk(more, layer, bufferLen)
            && TimesWalk(all, layer, s)
               == TimesWalk(more, layer, if c.header.kind == layer then SpanStep(s, c.header) else s)
            && WalkLength(all) == HEADER_SIZE + |c.payload| + WalkLength(more)
  {
    HeadOfSerialized(c, more);
    var all := Pack(c.header) + c.payload + more;
    ReadStep(all, layer, bufferLen);
    TimesStep(all, layer, s);
  }

  /** Both parsers, run over serialized chunks followed by a tail without MAGIC, see exactly
      the chunks, and stop exactly at the end of the serialized bytes. */
  lemma {:induction false} WalksOverSerialized(cs: seq<Chunk>, tail: seq<Byte>, layer: nat, bufferLen: nat, s: Span)
    requires AllSound(cs) && |tail| >= 4 && !HasMagic(tail)
    ensures var all := Serialize(cs) + tail;
            && DataChain(all)
            && ReadInBounds(all)
            && ReadWalk(all, layer, bufferLen) == PayloadOf(cs, layer)
            && TimesWalk(all, layer, s) == SpanOf(cs, layer, s)
            && WalkLength(all) == |Serialize(cs)|
    decreases |cs|
  {
    if cs == [] {
      EmptyIsNeutral(tail);
    } else {
      var c := cs[0];
      WalksOverSerialized(cs[1..], tail, layer, bufferLen, if c.header.kind == layer then SpanStep(s, c.header) else s);
      WalksOverChunk(c, Serialize(cs[1..]) + tail, layer, bufferLen, s);
      Associative(Pack(c.header) + c.payload, Serialize(cs[1..]), tail);
    }
  }
}

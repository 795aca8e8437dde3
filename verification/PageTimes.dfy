/** The times and counts mxfs_timerange_by_block reconstructs from a flushed page,
    against the times that were appended. */
module PageTimes {
  import opened Layout
  import opened CompressHeader
  import opened PageFormat
  import opened PageEncoder

  // The first instant whose seconds no longer fit a header's 32-bit field.
  const SECONDS_LIMIT: int := 1000 * U32_RANGE

  /** What the second parser reports for a layer of a flushed page. */
  function PageSpan(bufs: seq<seq<Rec>>, layer: nat): Span
    requires Fits(bufs) && layer < LAYER_MAX
  {
    PageRoundTrip(bufs, layer, PAGE_SIZE, EMPTY_SPAN);
    TimesWalk(Padded(PageImage(bufs)), layer, EMPTY_SPAN)
  }

  /** A time as an ANTP header keeps it. */
  function Kept(t: U64): nat
  {
    Seconds(t) * 1000 + t % 1000
  }

  lemma KeptExactly(t: U64)
    ensures Kept(t) < SECONDS_LIMIT
    ensures Kept(t) == t <==> t < SECONDS_LIMIT
  {
    assert t == t / 1000 * 1000 + t % 1000;
  }

  /** The 32-bit milliseconds of a header are the low 32 bits of the time. */
  lemma Millis32OfTime(t: U64)
    ensures (Seconds(t) * 1000 + t % 1000) % U32_RANGE == t % U32_RANGE
  {
    var s := t / 1000;
    var k := s / U32_RANGE;
    assert s == k * U32_RANGE + Seconds(t);
    assert t == s * 1000 + t % 1000;
    assert t == Seconds(t) * 1000 + t % 1000 + (1000 * k) * U32_RANGE;
    ModuloShift(Seconds(t) * 1000 + t % 1000, 1000 * k);
  }

  lemma ModuloShift(x: nat, k: nat)
    ensures (x + k * U32_RANGE) % U32_RANGE == x % U32_RANGE
  {
  }

  /** The first time the parser does not take for "unset". */
  function FirstSet(recs: seq<Rec>): nat
  {
    if recs == [] then 0
    else
      var f := FirstSet(recs[..|recs| - 1]);
      if f != 0 then f else Kept(recs[|recs| - 1].time)
  }

  lemma {:induction false} FirstSetIsFirst(recs: seq<Rec>)
    requires recs != [] && Kept(recs[0].time) != 0
    ensures FirstSet(recs) == Kept(recs[0].time)
  {
    if |recs| > 1 {
      FirstSetIsFirst(recs[..|recs| - 1]);
    } else {
      assert recs[..0] == [];
    }
  }

  lemma {:induction false} AntSpan(layer: nat, recs: seq<Rec>)
    requires layer < LAYER_ANTP_MAX
    ensures SpanOf(AntChunks(layer, recs), layer, EMPTY_SPAN)
            == Span(FirstSet(recs), if recs == [] then 0 else Kept(recs[|recs| - 1].time), |recs|)
  {
    if recs != [] {
      var i := |recs| - 1;
      var c := Chunk(AntHeader(layer, recs[i]), recs[i].payload);
      AntSpan(layer, recs[..i]);
      SpanOfConcat(AntChunks(layer, recs[..i]), [c], layer, EMPTY_SPAN);
      SpanOfOne(c, layer, SpanOf(AntChunks(layer, recs[..i]), layer, EMPTY_SPAN));
    }
  }

  lemma SpanOfOne(c: Chunk, layer: nat, s: Span)
    ensures SpanOf([c], layer, s) == if c.header.kind == layer then SpanStep(s, c.header) else s
  {
    assert [c][1..] == [];
  }

  lemma {:induction false} OtherAntSpan(layer: nat, recs: seq<Rec>, wanted: nat, s: Span)
    requires wanted != layer
    ensures SpanOf(AntChunks(layer, recs), wanted, s) == s
  {
    if recs != [] {
      var i := |recs| - 1;
      var c := Chunk(AntHeader(layer, recs[i]), recs[i].payload);
      OtherAntSpan(layer, recs[..i], wanted, s);
      SpanOfConcat(AntChunks(layer, recs[..i]), [c], wanted, s);
      SpanOfOne(c, wanted, s);
    }
  }

  lemma OtherLayerSpan(bufs: seq<seq<Rec>>, layer: nat, wanted: nat, s: Span)
    requires layer < LAYER_MAX == |bufs| && wanted != layer
    ensures SpanOf(LayerChunks(bufs, layer), wanted, s) == s
  {
    if layer < LAYER_ANTP_MAX {
      OtherAntSpan(layer, bufs[layer], wanted, s);
    } else if bufs[layer] != [] {
      SpanOfOne(LayerChunks(bufs, layer)[0], wanted, s);
    }
  }

  lemma {:induction false} JoinSpan(layers: seq<seq<Chunk>>, n: nat, layer: nat)
    requires n <= |layers|
    requires forall l, s | 0 <= l < n && l != layer :: SpanOf(layers[l], layer, s) == s
    ensures SpanOf(Join(layers, n), layer, EMPTY_SPAN)
            == if layer < n then SpanOf(layers[layer], layer, EMPTY_SPAN) else EMPTY_SPAN
  {
    if n > 0 {
      JoinSpan(layers, n - 1, layer);
      SpanOfConcat(Join(layers, n - 1), layers[n - 1], layer, EMPTY_SPAN);
    }
  }

  lemma SpanOfChunks(bufs: seq<seq<Rec>>, layer: nat)
    requires |bufs| == LAYER_MAX && layer < LAYER_MAX
    ensures SpanOf(ChunksOf(bufs, LAYER_MAX), layer, EMPTY_SPAN) == SpanOf(LayerChunks(bufs, layer), layer, EMPTY_SPAN)
  {
    forall l, s | 0 <= l < LAYER_MAX && l != layer
      ensures SpanOf(LayersOf(bufs)[l], layer, s) == s
    {
      OtherLayerSpan(bufs, l, layer, s);
    }
    JoinSpan(LayersOf(bufs), LAYER_MAX, layer);
  }

  lemma PageSpanOfLayer(bufs: seq<seq<Rec>>, layer: nat)
    requires Fits(bufs) && layer < LAYER_MAX
    ensures PageSpan(bufs, layer) == SpanOf(LayerChunks(bufs, layer), layer, EMPTY_SPAN)
  {
    PageRoundTrip(bufs, layer, PAGE_SIZE, EMPTY_SPAN);
    SpanOfChunks(bufs, layer);
  }

  /** A header keeps a time modulo 2^32 seconds. */
  lemma KeptIsRemainder(t: U64)
    ensures Kept(t) == t % SECONDS_LIMIT
  {
    var s := t / 1000;
    var k := s / U32_RANGE;
    assert s == k * U32_RANGE + Seconds(t);
    assert t == s * 1000 + t % 1000;
    assert t == Kept(t) + k * SECONDS_LIMIT;
    KeptExactly(t);
  }

  lemma {:induction false} NeverSetIff(recs: seq<Rec>)
    ensures FirstSet(recs) == 0 <==> forall i | 0 <= i < |recs| :: Kept(recs[i].time) == 0
  {
    if recs != [] {
      NeverSetIff(recs[..|recs| - 1]);
    }
  }

  /** Is the first time of ANTP records exact in a report? Its seconds must fit 32 bits, and a first
      time of 0, which the parser takes for "not set yet", survives only among times that all have
      zero in the bits a header keeps. */
  predicate StartSurvives(recs: seq<Rec>)
    requires recs != []
  {
    && recs[0].time < SECONDS_LIMIT
    && (recs[0].time == 0 ==> forall i | 0 <= i < |recs| :: recs[i].time % SECONDS_LIMIT == 0)
  }

  lemma StartSurvivesIff(recs: seq<Rec>)
    requires recs != []
    ensures FirstSet(recs) == recs[0].time <==> StartSurvives(recs)
  {
    KeptExactly(recs[0].time);
    FirstSetBelowLimit(recs);
    NeverSetIff(recs);
    forall i | 0 <= i < |recs| ensures Kept(recs[i].time) == recs[i].time % SECONDS_LIMIT {
      KeptIsRemainder(recs[i].time);
    }
    if 0 < recs[0].time < SECONDS_LIMIT {
      FirstSetIsFirst(recs);
    }
  }

  /** ANTP times: the count is exact, the last time is exact iff its seconds fit 32 bits, and the
      first time is exact iff they do and it is not hidden by the parser's "not set yet". */
  lemma AntpTimesSurvive(bufs: seq<seq<Rec>>, layer: nat)
    requires Fits(bufs) && layer < LAYER_ANTP_MAX && bufs[layer] != []
    ensures var recs, r := bufs[layer], PageSpan(bufs, layer);
            && r.count == |recs|
            && (r.last == recs[|recs| - 1].time <==> recs[|recs| - 1].time < SECONDS_LIMIT)
            && (r.start == recs[0].time <==> StartSurvives(recs))
  {
    var recs := bufs[layer];
    PageSpanOfLayer(bufs, layer);
    AntSpan(layer, recs);
    KeptExactly(recs[|recs| - 1].time);
    StartSurvivesIff(recs);
  }

  lemma {:induction false} FirstSetBelowLimit(recs: seq<Rec>)
    ensures FirstSet(recs) < SECONDS_LIMIT
  {
    if recs != [] {
      FirstSetBelowLimit(recs[..|recs| - 1]);
      KeptExactly(recs[|recs| - 1].time);
    }
  }

  /** The last time the header of a one-header layer was computed from. */
  function HeaderLast(bufs: seq<seq<Rec>>, layer: nat): U64
    requires LAYER_ANTP_MAX <= layer < LAYER_MAX == |bufs| && bufs[layer] != []
  {
    if layer < LAYER_TEMPERATURE then bufs[layer][|bufs[layer]| - 1].time
    else TemperatureLast(bufs[layer], LastTime(bufs, LAYER_TEMPERATURE))
  }

  /** The header of a one-header layer, read back field by field. */
  lemma SensorHeader(bufs: seq<seq<Rec>>, layer: nat)
    requires Fits(bufs) && LAYER_ANTP_MAX <= layer < LAYER_MAX && bufs[layer] != []
    ensures var recs, cs := bufs[layer], LayerChunks(bufs, layer);
            && |cs| == 1
            && var h := cs[0].header;
            && h.kind == layer
            && RecordCount(h) == |recs|
            && h.step == StepOf(recs[0].time, HeaderLast(bufs, layer), |recs|)
            && h.time == Seconds(recs[0].time) && h.msec == recs[0].time % 1000
  {
    LayerIsSmall(bufs, layer);
    var h := LayerChunks(bufs, layer)[0].header;
    if layer < LAYER_TEMPERATURE {
      assert h.detail / 8 == |bufs[layer]|;
    } else {
      assert h.detail / 0x1_0000 == |bufs[layer]|;
    }
  }

  /** The end of a run of `n` records as the second parser extrapolates it. */
  function Extrapolated(first: U64, last: U64, n: nat): nat
    requires n > 0
  {
    first % U32_RANGE + n * StepOf(first, last, n)
  }

  /** Gyro, accelerometer and temperature: exact count, the low 32 bits of the first time, and a
      last time extrapolated by count times the stored step. */
  lemma SensorTimes(bufs: seq<seq<Rec>>, layer: nat)
    requires Fits(bufs) && LAYER_ANTP_MAX <= layer < LAYER_MAX && bufs[layer] != []
    ensures var recs, r := bufs[layer], PageSpan(bufs, layer);
            && r.count == |recs|
            && r.start == recs[0].time % U32_RANGE
            && r.last == Extrapolated(recs[0].time, HeaderLast(bufs, layer), |recs|)
  {
    SensorHeader(bufs, layer);
    PageSpanOfLayer(bufs, layer);
    SpanOfSensor(LayerChunks(bufs, layer), layer, bufs[layer][0].time, |bufs[layer]|,
                 StepOf(bufs[layer][0].time, HeaderLast(bufs, layer), |bufs[layer]|));
  }

  lemma SpanOfSensor(cs: seq<Chunk>, layer: nat, first: U64, n: nat, step: nat)
    requires |cs| == 1 && LAYER_ANTP_MAX <= layer < LAYER_MAX
    requires var h := cs[0].header;
             && h.kind == layer && RecordCount(h) == n && h.step == step
             && h.time == Seconds(first) && h.msec == first % 1000
    ensures SpanOf(cs, layer, EMPTY_SPAN)
            == Span(first % U32_RANGE, first % U32_RANGE + n * step, n)
  {
    Millis32OfTime(first);
    assert cs == [cs[0]];
    SpanOfOne(cs[0], layer, EMPTY_SPAN);
  }

  /** Every record of the layer is counted. */
  lemma PageSpanCount(bufs: seq<seq<Rec>>, layer: nat)
    requires Fits(bufs) && layer < LAYER_MAX
    ensures PageSpan(bufs, layer).count == |bufs[layer]|
  {
    PageSpanOfLayer(bufs, layer);
    if layer < LAYER_ANTP_MAX {
      AntSpan(layer, bufs[layer]);
    } else if bufs[layer] != [] {
      SensorTimes(bufs, layer);
    }
  }

  lemma DivideBounds(d: nat, n: nat)
    requires n > 0
    ensures d - n < n * (d / n) <= d
  {
  }

  lemma ProductMonotone(n: nat, p: nat, q: nat)
    requires p <= q
    ensures n * p <= n * q
  {
  }

  /** For times in order the stored step is the low 32 bits of the average gap, capped at 16 bits. */
  lemma StepInOrder(first: U64, last: U64, n: nat)
    requires n > 0 && first <= last
    ensures StepOf(first, last, n) == Min((last - first) / n % U32_RANGE, 0xFFFF)
  {
    assert (last - first) % U64_RANGE == last - first;
  }

  lemma StepBound(d: nat, n: nat)
    requires n > 0
    ensures var end := n * Min(d / n, 0xFFFF);
            if d / n <= 0xFFFF then d - n < end <= d else end == n * 0xFFFF < d
  {
    DivideBounds(d, n);
    if d / n > 0xFFFF {
      ProductMonotone(n, 0x1_0000, d / n);
    }
  }

  /** For a last time before the first the difference wraps at 64 bits before it is divided. */
  lemma StepOutOfOrder(first: U64, last: U64, n: nat)
    requires n > 0 && last < first
    ensures StepOf(first, last, n) == Min((0x1_0000_0000_0000_0000 - (first - last)) / n % 0x1_0000_0000, 65535)
  {
    assert (last - first) % U64_RANGE == 0x1_0000_0000_0000_0000 - (first - last);
  }

  /** How far `end` may be from the true last time of `n` records. */
  predicate WithinBound(first: U64, last: U64, n: nat, end: nat)
    requires n > 0 && first <= last
  {
    if (last - first) / n <= 0xFFFF then last - n < end <= last
    else end == first + n * 0xFFFF < last
  }

  /** Do the first time and the average gap of `n` records survive the 32 and 16 bits of a header? */
  predicate GapSurvives(first: U64, last: U64, n: nat)
    requires n > 0 && first <= last
  {
    var gap := (last - first) / n;
    first < U32_RANGE && (gap <= 0xFFFF || gap % U32_RANGE >= 0xFFFF)
  }

  lemma ExtrapolatedBoundIff(first: U64, last: U64, n: nat)
    requires n > 0 && first <= last
    ensures first % U32_RANGE == first && WithinBound(first, last, n, Extrapolated(first, last, n))
            <==> GapSurvives(first, last, n)
  {
    StepInOrder(first, last, n);
    if first < U32_RANGE {
      GapBoundIff(first, last, n, (last - first) / n, StepOf(first, last, n));
    }
  }

  lemma GapBoundIff(first: U64, last: U64, n: nat, gap: nat, step: nat)
    requires n > 0 && first <= last && gap == (last - first) / n && step == Min(gap % U32_RANGE, 0xFFFF)
    ensures WithinBound(first, last, n, first + n * step) <==> gap <= 0xFFFF || gap % U32_RANGE >= 0xFFFF
  {
    StepBound(last - first, n);
    if gap > 0xFFFF && gap % U32_RANGE < 0xFFFF {
      ProductStrict(n, step, 0xFFFF);
    }
  }

  lemma ProductStrict(n: nat, p: nat, q: nat)
    requires n > 0 && p < q
    ensures n * p < n * q
  {
  }

  /** The start is exact and the end is within its bound. */
  predicate Reconstructs(first: U64, last: U64, n: nat, r: Span)
    requires n > 0 && first <= last
  {
    r.start == first && WithinBound(first, last, n, r.last)
  }

  lemma ReconstructsIff(first: U64, last: U64, n: nat, r: Span)
    requires n > 0 && first <= last && r.start == first % U32_RANGE && r.last == Extrapolated(first, last, n)
    ensures Reconstructs(first, last, n, r) <==> GapSurvives(first, last, n)
  {
    ExtrapolatedBoundIff(first, last, n);
  }

  /** Reconstruction bound for a first time not after the last: the start is exact and the reported end
      is at most the true last time and less than one millisecond per record before it (beyond an average
      gap of 65535 ms: saturated strictly below it), iff the first time fits 32 bits and the gap is not
      cut off. */
  lemma SensorTimesBoundIff(bufs: seq<seq<Rec>>, layer: nat, first: U64, last: U64, n: nat)
    requires Fits(bufs) && LAYER_ANTP_MAX <= layer < LAYER_MAX && n == |bufs[layer]| > 0
    requires layer == LAYER_TEMPERATURE ==> n >= 2
    requires first == bufs[layer][0].time && last == bufs[layer][n - 1].time && first <= last
    ensures Reconstructs(first, last, n, PageSpan(bufs, layer)) <==> GapSurvives(first, last, n)
  {
    SensorTimes(bufs, layer);
    HeaderLastIsLast(bufs, layer);
    ReconstructsIff(first, last, n, PageSpan(bufs, layer));
  }

  /** The reported end of records whose last time is before the first one. */
  lemma OutOfOrderEnd(bufs: seq<seq<Rec>>, layer: nat, first: U64, last: U64, n: nat)
    requires Fits(bufs) && LAYER_ANTP_MAX <= layer < LAYER_MAX && n == |bufs[layer]| >= 2
    requires first == bufs[layer][0].time && last == bufs[layer][n - 1].time && last < first
    ensures var gap := (0x1_0000_0000_0000_0000 - (first - last)) / n % 0x1_0000_0000;
            PageSpan(bufs, layer).last == first % 0x1_0000_0000 + n * Min(gap, 65535)
  {
    SensorTimes(bufs, layer);
    HeaderLastIsLast(bufs, layer);
    StepOutOfOrder(first, last, n);
  }

  lemma HeaderLastIsLast(bufs: seq<seq<Rec>>, layer: nat)
    requires LAYER_ANTP_MAX <= layer < LAYER_MAX == |bufs| && bufs[layer] != []
    requires layer == LAYER_TEMPERATURE ==> |bufs[layer]| >= 2
    ensures HeaderLast(bufs, layer) == bufs[layer][|bufs[layer]| - 1].time
  {
  }

  lemma ExtrapolatedOne(t: U64, stale: U64)
    ensures Extrapolated(t, stale, 1) == t <==> t < U32_RANGE && stale % U32_RANGE == t
  {
    if t < U32_RANGE {
      ShortGapOne(t, stale);
    } else {
      assert t % U32_RANGE <= t - U32_RANGE;
    }
  }

  lemma ShortGapOne(t: U64, stale: U64)
    requires t < U32_RANGE
    ensures Extrapolated(t, stale, 1) == t <==> stale % U32_RANGE == t
  {
    assert (stale - t) % U64_RANGE == if stale >= t then stale - t else stale - t + U64_RANGE;
  }

  /** A single temperature record takes its last time from an earlier layer: the reported end is
      the record's own time iff that time fits 32 bits and the left-over time agrees with it there. */
  lemma SingleTemperature(bufs: seq<seq<Rec>>)
    requires Fits(bufs) && |bufs[LAYER_TEMPERATURE]| == 1
    ensures var t := bufs[LAYER_TEMPERATURE][0].time;
            PageSpan(bufs, LAYER_TEMPERATURE).last == t
            <==> t < U32_RANGE && LastTime(bufs, LAYER_TEMPERATURE) % U32_RANGE == t
  {
    SensorTimes(bufs, LAYER_TEMPERATURE);
    ExtrapolatedOne(bufs[LAYER_TEMPERATURE][0].time, LastTime(bufs, LAYER_TEMPERATURE));
  }

  lemma {:induction false} LastTimeIs(bufs: seq<seq<Rec>>, n: nat, l: nat)
    requires l < n <= |bufs| && bufs[l] != [] && forall k | l < k < n :: bufs[k] == []
    ensures LastTime(bufs, n) == bufs[l][|bufs[l]| - 1].time
  {
    if l < n - 1 {
      LastTimeIs(bufs, n - 1, l);
    }
  }

  lemma {:induction false} NoLastTime(bufs: seq<seq<Rec>>, n: nat)
    requires n <= |bufs| && forall k | 0 <= k < n :: bufs[k] == []
    ensures LastTime(bufs, n) == 0
  {
    if n > 0 {
      NoLastTime(bufs, n - 1);
    }
  }

  /** The left-over time by name: the last record of the last layer in front of temperature that holds any,
      else 0. */
  lemma SingleTemperatureAfter(bufs: seq<seq<Rec>>, l: nat)
    requires Fits(bufs) && |bufs[5]| == 1 && l <= 5
    requires (l < 5 ==> bufs[l] != []) && forall k | l < k < 5 :: bufs[k] == []
    requires l == 5 ==> forall k | 0 <= k < 5 :: bufs[k] == []
    ensures var t, left := bufs[5][0].time, if l == 5 then 0 else bufs[l][|bufs[l]| - 1].time;
            PageSpan(bufs, 5).last == t <==> t < 0x1_0000_0000 && left % 0x1_0000_0000 == t
  {
    SingleTemperature(bufs);
    if l < 5 {
      LastTimeIs(bufs, 5, l);
    } else {
      NoLastTime(bufs, 5);
    }
  }

  // ----- the time of a page

  lemma {:induction false} JoinHead(layers: seq<seq<Chunk>>, layer: nat, n: nat)
    requires layer < n <= |layers| && layers[layer] != [] && forall l | 0 <= l < layer :: layers[l] == []
    ensures Join(layers, n) != [] && Join(layers, n)[0] == layers[layer][0]
  {
    if n > layer + 1 {
      JoinHead(layers, layer, n - 1);
    } else {
      JoinNone(layers, layer);
    }
  }

  lemma {:induction false} JoinNone(layers: seq<seq<Chunk>>, n: nat)
    requires n <= |layers| && forall l | 0 <= l < n :: layers[l] == []
    ensures Join(layers, n) == []
  {
    if n > 0 {
      JoinNone(layers, n - 1);
    }
  }

  lemma {:induction false} AntChunksHead(layer: nat, recs: seq<Rec>)
    requires recs != []
    ensures AntChunks(layer, recs) != [] && AntChunks(layer, recs)[0] == Chunk(AntHeader(layer, recs[0]), recs[0].payload)
  {
    if |recs| > 1 {
      AntChunksHead(layer, recs[..|recs| - 1]);
    } else {
      assert AntChunks(layer, recs[..0]) == [];
    }
  }

  lemma LayerHead(bufs: seq<seq<Rec>>, layer: nat)
    requires layer < LAYER_MAX == |bufs| && bufs[layer] != []
    ensures var cs := LayerChunks(bufs, layer); cs != [] && cs[0].header.time == Seconds(bufs[layer][0].time)
  {
    if layer < LAYER_ANTP_MAX {
      AntChunksHead(layer, bufs[layer]);
    }
  }

  /** The time a page carries in its first header, which the mount compares: the seconds of the first
      record of the first layer the page holds. */
  lemma ImageSeconds(bufs: seq<seq<Rec>>, layer: nat)
    requires Fits(bufs) && layer < LAYER_MAX && bufs[layer] != [] && forall l | 0 <= l < layer :: bufs[l] == []
    ensures WordAt(Padded(PageImage(bufs)), 4) == Seconds(bufs[layer][0].time)
  {
    var cs := ChunksOf(bufs, LAYER_MAX);
    ChunksOfSound(bufs, LAYER_MAX);
    LayerHead(bufs, layer);
    JoinHead(LayersOf(bufs), layer, LAYER_MAX);
    SerializedTime(cs, Repeat<Byte>(0xFF, PAGE_SIZE - |PageImage(bufs)|));
  }

  lemma PackedTime(h: Header, rest: seq<Byte>)
    requires FieldsFit(h)
    ensures WordAt(Pack(h) + rest, 4) == h.time
  {
    UnpackOfPack(h, rest);
    assert WordAt(Pack(h) + rest, 4) == Unpack(Pack(h) + rest).time;
  }

  lemma SerializedTime(cs: seq<Chunk>, tail: seq<Byte>)
    requires AllSound(cs) && cs != []
    ensures |Serialize(cs)| >= HEADER_SIZE && WordAt(Serialize(cs) + tail, 4) == cs[0].header.time
  {
    var head, payload, more := Pack(cs[0].header), cs[0].payload, Serialize(cs[1..]);
    Associative(head, payload, more);
    Associative(head, payload + more, tail);
    PackedTime(cs[0].header, payload + more + tail);
  }
}

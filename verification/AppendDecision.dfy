/** What mxfs_append decides, on the bytes a page would have and a buffer holds, and sessions of one
    layer. Numbers are written out. */
module AppendDecision {
  import opened Layout
  import opened PageEncoder
  import opened Runs
  import opened EraseDiscipline
  import opened RingLog
  import L = LogFs

  // ----- what mxfs_append decides

  /** The layers and record lengths the source accepts. */
  predicate Accepted(layer: nat, k: nat)
  {
    (layer < 3 && k == 18) || (3 <= layer < 5 && k == 6) || (layer == 5 && k == 2)
  }

  /** The record is buffered, or the buffer of `cap` bytes is too small for it. */
  function Buffered(cap: nat, s: L.State, layer: nat, time: U64, payload: seq<Byte>): (L.State, int)
    requires layer < |s.bufs|
  {
    var held := s.bufs[layer];
    if 8 * |held| + |Payloads(held)| + 8 + |payload| > cap then (s, -2)
    else (s.(bufs := s.bufs[layer := held + [Rec(time, payload)]]), 0)
  }

  lemma ImageLength(s: L.State)
    requires L.WellFormed(s)
    ensures |PageImage(s.bufs)| == TotalLength(s.bufs, LAYER_MAX)
  {
  }

  lemma HeldBytes(layer: nat, recs: seq<Rec>)
    requires RecsOk(layer, recs)
    ensures 8 * |recs| + |Payloads(recs)| == |recs| * (TIME_SIZE + RecordSize(layer))
  {
    PayloadsLength(layer, recs);
  }

  /** mxfs_append, decided on the bytes: a record of the wrong length is refused; if the page the buffers
      would make and the raw record exceed 1984 bytes they are flushed first, exactly then; and the record is
      refused for space iff the times and records buffered with it exceed the layer's buffer. */
  lemma AppendDecides(cap: nat, s: L.State, layer: nat, time: U64, payload: seq<Byte>, drv: L.Driver)
    requires L.WellFormed(s)
    ensures !Accepted(layer, |payload|) ==> L.Append(cap, s, layer, time, payload, drv) == (s, -1)
    ensures Accepted(layer, |payload|) ==>
              L.Append(cap, s, layer, time, payload, drv)
              == Buffered(cap, if |PageImage(s.bufs)| + |payload| > 1984 then L.Flush(s, drv).0 else s,
                          layer, time, payload)
    ensures L.AppendOps(s, layer, |payload|, drv)
            == if Accepted(layer, |payload|) && |PageImage(s.bufs)| + |payload| > 1984 then L.FlushOps(s, drv) else []
  {
    ImageLength(s);
    if L.Accepts(layer, |payload|) {
      L.FlushWellFormed(s, drv);
      HeldBytes(layer, L.BeforeBuffering(s, layer, |payload|, drv).bufs[layer]);
    }
  }

  // ----- sessions of one layer

  /** Records of one layer a page takes before the next one flushes it. */
  function PerPage(layer: nat): nat
  {
    if layer < 3 then 58 else if layer < 5 then 328 else 984
  }

  /** Only `layer` is buffered, with m records. */
  predicate Filled(s: L.State, layer: nat, m: nat)
  {
    |s.bufs| == LAYER_MAX && forall l | 0 <= l < LAYER_MAX :: |s.bufs[l]| == if l == layer then m else 0
  }

  lemma {:induction false} FilledLength(s: L.State, layer: nat, m: nat, n: nat)
    requires Filled(s, layer, m) && layer < LAYER_MAX && n <= LAYER_MAX
    ensures TotalLength(s.bufs, n) == if layer < n then LayerLength(layer, m) else 0
  {
    if n > 0 {
      FilledLength(s, layer, m, n - 1);
    }
  }

  lemma PageFull(layer: nat, m: nat)
    requires layer < LAYER_MAX && m <= PerPage(layer)
    ensures LayerLength(layer, m) + RecordSize(layer) > 1984 <==> m == PerPage(layer)
  {
  }

  lemma RoomToFill(layer: nat, m: nat, cap: nat)
    requires layer < LAYER_MAX && m < PerPage(layer) && cap >= PerPage(layer) * (8 + RecordSize(layer))
    ensures m * (8 + RecordSize(layer)) + 8 + RecordSize(layer) <= cap
  {
  }

  /** A healthy append of one record of the layer. */
  predicate OneRecord(e: Event, layer: nat)
  {
    e.Append? && e.layer == layer && |e.payload| == RecordSize(layer) && e.drv == L.HEALTHY
  }

  lemma HealthyFlush(s: L.State)
    requires L.WellFormed(s) && !AllEmpty(s.bufs)
    ensures |Programs(L.FlushOps(s, L.HEALTHY))| == 1 && L.Flush(s, L.HEALTHY).0.bufs == L.EmptyBufs()
  {
    FlushTrace(s, []);
    EmptyIsNeutral(L.FlushOps(s, L.HEALTHY));
    L.FlushWellFormed(s, L.HEALTHY);
  }

  lemma FullDecides(s: L.State, layer: nat)
    requires L.WellFormed(s) && layer < LAYER_MAX && Filled(s, layer, PerPage(layer))
    ensures |PageImage(s.bufs)| + RecordSize(layer) > 1984
  {
    FilledLength(s, layer, PerPage(layer), LAYER_MAX);
    PageFull(layer, PerPage(layer));
  }

  lemma FullStep(cap: nat, s: L.State, layer: nat, e: Event)
    requires L.WellFormed(s) && layer < LAYER_MAX && Filled(s, layer, PerPage(layer)) && OneRecord(e, layer)
    requires cap >= 8 + RecordSize(layer)
    ensures Filled(Step(cap, s, e), layer, 1) && |Programs(EventOps(s, e))| == 1
  {
    FullDecides(s, layer);
    AppendDecides(cap, s, layer, e.time, e.payload, e.drv);
    AutoFlushHasData(s, layer, |e.payload|);
    HealthyFlush(s);
  }

  lemma RoomyStep(cap: nat, s: L.State, layer: nat, m: nat, e: Event)
    requires L.WellFormed(s) && layer < LAYER_MAX && Filled(s, layer, m) && m < PerPage(layer) && OneRecord(e, layer)
    requires cap >= PerPage(layer) * (8 + RecordSize(layer))
    ensures Filled(Step(cap, s, e), layer, m + 1) && EventOps(s, e) == []
  {
    AppendDecides(cap, s, layer, e.time, e.payload, e.drv);
    FilledLength(s, layer, m, LAYER_MAX);
    PageFull(layer, m);
    HeldBytes(layer, s.bufs[layer]);
    RoomToFill(layer, m, cap);
  }

  /** One more record of the layer: the page is flushed first iff it holds 58, 328 or 984 of them. */
  lemma OneLayerStep(cap: nat, s: L.State, layer: nat, m: nat, e: Event)
    requires L.WellFormed(s) && layer < LAYER_MAX && Filled(s, layer, m) && m <= PerPage(layer) && OneRecord(e, layer)
    requires cap >= PerPage(layer) * (8 + RecordSize(layer))
    ensures Filled(Step(cap, s, e), layer, if m == PerPage(layer) then 1 else m + 1)
    ensures |Programs(EventOps(s, e))| == if m == PerPage(layer) then 1 else 0
  {
    if m == PerPage(layer) {
      FullStep(cap, s, layer, e);
    } else {
      RoomyStep(cap, s, layer, m, e);
    }
  }

  predicate OneLayer(es: seq<Event>, layer: nat)
  {
    forall i | 0 <= i < |es| :: OneRecord(es[i], layer)
  }

  function FullPages(n: nat, perPage: nat): nat
    requires perPage > 0
  {
    if n == 0 then 0 else (n - 1) / perPage
  }

  lemma FullPagesStep(n: nat, perPage: nat)
    requires perPage == 58 || perPage == 328 || perPage == 984
    ensures n - perPage * FullPages(n, perPage) >= 0
    ensures var left := n - perPage * FullPages(n, perPage);
            && left <= perPage
            && FullPages(n + 1, perPage) == FullPages(n, perPage) + (if left == perPage then 1 else 0)
            && n + 1 - perPage * FullPages(n + 1, perPage) == if left == perPage then 1 else left + 1
  {
  }

  /** A session of n records of one layer flushes after exactly every 58 ANTP, 328 gyro or accelerometer or
      984 temperature records, if the buffer can hold as many. */
  lemma {:induction false} OneLayerSession(cap: nat, s: L.State, es: seq<Event>, layer: nat)
    requires L.WellFormed(s) && AllEmpty(s.bufs) && layer < LAYER_MAX && OneLayer(es, layer) && EventsOk(es)
    requires cap >= PerPage(layer) * (8 + RecordSize(layer))
    ensures var n, pages := |es|, FullPages(|es|, PerPage(layer));
            && |Programs(RunOps(cap, s, es))| == pages
            && n >= PerPage(layer) * pages
            && Filled(Run(cap, s, es), layer, n - PerPage(layer) * pages)
  {
    if es != [] {
      var before, e := es[..|es| - 1], es[|es| - 1];
      OneLayerSession(cap, s, before, layer);
      FullPagesStep(|before|, PerPage(layer));
      OneLayerStep(cap, Run(cap, s, before), layer, |before| - PerPage(layer) * FullPages(|before|, PerPage(layer)), e);
      ProgramsConcat(RunOps(cap, s, before), EventOps(Run(cap, s, before), e));
    }
  }
}

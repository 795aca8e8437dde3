/** Conservation of the appended bytes, over any run with power cuts, and over one session where the
    flash is a sliding window; even wear. */
module Conservation {
  import opened Layout
  import opened PageEncoder
  import opened Runs
  import opened EraseDiscipline
  import opened RingLog
  import L = LogFs

  function AcceptedBy(cap: nat, s: L.State, e: Event, layer: nat): seq<Byte>
    requires L.WellFormed(s)
  {
    if e.Append? && e.layer == layer && L.Append(cap, s, e.layer, e.time, e.payload, e.drv).1 == OK
    then e.payload else []
  }

  /** The payload bytes of a layer that append accepted, in order. */
  function Accepted(cap: nat, s: L.State, es: seq<Event>, layer: nat): seq<Byte>
    requires L.WellFormed(s) && EventsOk(es)
  {
    if es == [] then []
    else
      var before, e := es[..|es| - 1], es[|es| - 1];
      Accepted(cap, s, before, layer) + AcceptedBy(cap, Run(cap, s, before), e, layer)
  }

  predicate LogSized(log: seq<L.Op>)
  {
    forall i | 0 <= i < |log| :: log[i].Program? && |log[i].data| <= PAGE_SIZE
  }

  /** What mxfs_read would return from the logged pages, one after the other. */
  function LogBytes(log: seq<L.Op>, layer: nat): seq<Byte>
    requires LogSized(log)
  {
    if log == [] then []
    else LogBytes(log[..|log| - 1], layer) + LayerBytes(Padded(log[|log| - 1].data), layer)
  }

  lemma LogGrows(log: seq<L.Op>, op: L.Op, layer: nat)
    requires LogSized(log) && op.Program? && |op.data| <= PAGE_SIZE
    ensures LogSized(log + [op])
    ensures LogBytes(log + [op], layer) == LogBytes(log, layer) + LayerBytes(Padded(op.data), layer)
  {
    assert (log + [op])[..|log|] == log;
  }

  // ----- any run

  /** Does the event drain the buffers, onto the flash or to nowhere? */
  predicate Drains(s: L.State, e: Event)
    requires L.WellFormed(s)
  {
    match e
    case Append(layer, _, payload, _) => L.FlushesNow(s, layer, |payload|)
    case Flush(_) => true
    case UserErase(_, _) => false
    case PowerCut(_) => true
  }

  /** The bytes of a layer that left the buffers together, and whether a page took them. */
  datatype Batch = Batch(written: bool, bytes: seq<Byte>)

  function BatchOf(s: L.State, e: Event, layer: nat): seq<Batch>
    requires L.WellFormed(s) && EventOk(e) && layer < LAYER_MAX
  {
    if Drains(s, e) then [Batch(Programs(EventOps(s, e)) != [], Payloads(s.bufs[layer]))] else []
  }

  /** All batches of a run, in order. */
  function Batches(cap: nat, s: L.State, es: seq<Event>, layer: nat): seq<Batch>
    requires L.WellFormed(s) && EventsOk(es) && layer < LAYER_MAX
  {
    if es == [] then []
    else
      var before := es[..|es| - 1];
      Batches(cap, s, before, layer) + BatchOf(Run(cap, s, before), es[|es| - 1], layer)
  }

  function AllBytes(batches: seq<Batch>): seq<Byte>
  {
    if batches == [] then []
    else AllBytes(batches[..|batches| - 1]) + batches[|batches| - 1].bytes
  }

  /** What remains of the batches when the lost ones are dropped. */
  function WrittenBytes(batches: seq<Batch>): seq<Byte>
  {
    if batches == [] then []
    else
      var last := batches[|batches| - 1];
      WrittenBytes(batches[..|batches| - 1]) + if last.written then last.bytes else []
  }

  lemma BatchAdded(batches: seq<Batch>, more: seq<Batch>)
    requires |more| <= 1
    ensures AllBytes(batches + more) == AllBytes(batches) + if more == [] then [] else more[0].bytes
    ensures WrittenBytes(batches + more)
            == WrittenBytes(batches) + if more != [] && more[0].written then more[0].bytes else []
  {
    if more == [] {
      assert batches + more == batches;
    } else {
      assert (batches + more)[..|batches|] == batches;
    }
  }

  lemma AppendPayload(bufs: seq<seq<Rec>>, layer: nat, rec: Rec, wanted: nat)
    requires |bufs| == LAYER_MAX && layer < LAYER_MAX && wanted < LAYER_MAX
    ensures Payloads(bufs[layer := bufs[layer] + [rec]][wanted])
            == Payloads(bufs[wanted]) + if layer == wanted then rec.payload else []
  {
    assert (bufs[layer] + [rec])[..|bufs[layer]|] == bufs[layer];
    EmptyIsNeutral(Payloads(bufs[wanted]));
  }

  lemma BufferedBefore(s: L.State, layer: nat, added: nat, length: nat, drv: L.Driver)
    requires L.WellFormed(s) && layer < LAYER_MAX
    ensures L.WellFormed(L.BeforeBuffering(s, added, length, drv))
    ensures Payloads(L.BeforeBuffering(s, added, length, drv).bufs[layer])
            == if L.FlushesNow(s, added, length) then [] else Payloads(s.bufs[layer])
  {
    L.FlushWellFormed(s, drv);
  }

  lemma AppendResult(cap: nat, s: L.State, e: Event)
    requires L.WellFormed(s) && e.Append?
    ensures var s1 := L.BeforeBuffering(s, e.layer, |e.payload|, e.drv);
            var bufs := Step(cap, s, e).bufs;
            && |s1.bufs| == LAYER_MAX
            && if L.Append(cap, s, e.layer, e.time, e.payload, e.drv).1 == OK
               then e.layer < LAYER_MAX
                    && bufs == s1.bufs[e.layer := s1.bufs[e.layer] + [Rec(e.time, e.payload)]]
               else bufs == s1.bufs
  {
    L.FlushWellFormed(s, e.drv);
  }

  lemma AppendBuffers(cap: nat, s: L.State, e: Event, layer: nat)
    requires L.WellFormed(s) && e.Append? && layer < LAYER_MAX
    ensures Payloads(Step(cap, s, e).bufs[layer])
            == (if Drains(s, e) then [] else Payloads(s.bufs[layer])) + AcceptedBy(cap, s, e, layer)
  {
    var bufs := L.BeforeBuffering(s, e.layer, |e.payload|, e.drv).bufs;
    AppendResult(cap, s, e);
    BufferedBefore(s, layer, e.layer, |e.payload|, e.drv);
    EmptyIsNeutral(Payloads(bufs[layer]));
    if L.Append(cap, s, e.layer, e.time, e.payload, e.drv).1 == OK {
      AppendPayload(bufs, e.layer, Rec(e.time, e.payload), layer);
    }
  }

  /** What was buffered leaves with the batch or stays; what was accepted comes behind it. */
  lemma StepBuffers(cap: nat, s: L.State, e: Event, layer: nat)
    requires L.WellFormed(s) && EventOk(e) && layer < LAYER_MAX
    ensures Payloads(Step(cap, s, e).bufs[layer])
            == (if Drains(s, e) then [] else Payloads(s.bufs[layer])) + AcceptedBy(cap, s, e, layer)
  {
    EmptyIsNeutral(Payloads(s.bufs[layer]));
    match e
    case Append(_, _, _, _) => AppendBuffers(cap, s, e, layer);
    case Flush(drv) => L.FlushWellFormed(s, drv);
    case UserErase(_, _) =>
    case PowerCut(_) =>
  }

  /** The calls of a flush, or the first of them, program one page at most: the image of the buffers. */
  lemma FlushPrograms(s: L.State, drv: L.Driver, n: nat)
    requires L.WellFormed(s) && n <= |L.FlushOps(s, drv)|
    ensures var log := Programs(L.FlushOps(s, drv)[..n]);
            log == [] || log == [L.Program(s.block, s.page, PageImage(s.bufs))]
  {
    var ops := L.FlushOps(s, drv)[..n];
    if |ops| == 1 {
      assert ops == [ops[0]];
      ProgramsOne(ops[0]);
    } else if |ops| == 2 {
      ProgramsOne(ops[0]);
      ProgramsOne(ops[1]);
      ProgramsConcat([ops[0]], [ops[1]]);
      assert ops == [ops[0]] + [ops[1]];
    }
  }

  lemma EventPrograms(s: L.State, e: Event)
    requires L.WellFormed(s) && EventOk(e)
    ensures var log := Programs(EventOps(s, e));
            log == [] || (Drains(s, e) && log == [L.Program(s.block, s.page, PageImage(s.bufs))])
  {
    match e
    case Append(layer, _, payload, drv) =>
      var ops := L.FlushOps(s, drv);
      FlushPrograms(s, drv, |ops|);
      assert ops[..|ops|] == ops;
    case Flush(drv) =>
      var ops := L.FlushOps(s, drv);
      FlushPrograms(s, drv, |ops|);
      assert ops[..|ops|] == ops;
    case UserErase(b, _) => ProgramsOne(L.Erase(b));
    case PowerCut(calls) => FlushPrograms(s, L.HEALTHY, |EventOps(s, e)|);
  }

  lemma LogOfOne(op: L.Op, layer: nat)
    requires op.Program? && |op.data| <= PAGE_SIZE
    ensures LogSized([op]) && LogBytes([op], layer) == LayerBytes(Padded(op.data), layer)
  {
    LogGrows([], op, layer);
    assert [] + [op] == [op];
    EmptyIsNeutral(LayerBytes(Padded(op.data), layer));
  }

  /** A page that takes a batch holds exactly its bytes for mxfs_read. */
  lemma StepLogs(s: L.State, e: Event, layer: nat)
    requires L.WellFormed(s) && EventOk(e) && layer < LAYER_MAX
    ensures var log := Programs(EventOps(s, e));
            && |log| <= 1 && LogSized(log)
            && (log != [] ==> Drains(s, e) && LogBytes(log, layer) == Payloads(s.bufs[layer]))
  {
    EventPrograms(s, e);
    ImageBytes(s.bufs, layer);
    LogOfOne(L.Program(s.block, s.page, PageImage(s.bufs)), layer);
  }

  lemma LogAppend(log: seq<L.Op>, more: seq<L.Op>, layer: nat)
    requires LogSized(log) && LogSized(more) && |more| <= 1
    ensures LogSized(log + more) && LogBytes(log + more, layer) == LogBytes(log, layer) + LogBytes(more, layer)
  {
    if more == [] {
      assert log + more == log;
      EmptyIsNeutral(LogBytes(log, layer));
    } else {
      assert more == [more[0]];
      LogGrows(log, more[0], layer);
      LogOfOne(more[0], layer);
    }
  }

  /** `stream` is all batches and then the buffer; the log is the batches that were not lost. */
  predicate Accounted(stream: seq<Byte>, s: L.State, ops: seq<L.Op>, batches: seq<Batch>, layer: nat)
    requires L.WellFormed(s) && layer < LAYER_MAX
  {
    && stream == AllBytes(batches) + Payloads(s.bufs[layer])
    && LogSized(Programs(ops))
    && WrittenBytes(batches) == LogBytes(Programs(ops), layer)
  }

  lemma LogStep(ops: seq<L.Op>, batches: seq<Batch>, s: L.State, e: Event, layer: nat)
    requires L.WellFormed(s) && EventOk(e) && layer < LAYER_MAX && LogSized(Programs(ops))
    requires WrittenBytes(batches) == LogBytes(Programs(ops), layer)
    ensures LogSized(Programs(ops + EventOps(s, e)))
    ensures WrittenBytes(batches + BatchOf(s, e, layer)) == LogBytes(Programs(ops + EventOps(s, e)), layer)
  {
    StepLogs(s, e, layer);
    ProgramsConcat(ops, EventOps(s, e));
    LogAppend(Programs(ops), Programs(EventOps(s, e)), layer);
    BatchAdded(batches, BatchOf(s, e, layer));
  }

  lemma StreamStep(cap: nat, stream: seq<Byte>, batches: seq<Batch>, s: L.State, e: Event, layer: nat)
    requires L.WellFormed(s) && EventOk(e) && layer < LAYER_MAX
    requires stream == AllBytes(batches) + Payloads(s.bufs[layer])
    ensures stream + AcceptedBy(cap, s, e, layer)
            == AllBytes(batches + BatchOf(s, e, layer)) + Payloads(Step(cap, s, e).bufs[layer])
  {
    StepBuffers(cap, s, e, layer);
    BatchAdded(batches, BatchOf(s, e, layer));
    EmptyIsNeutral(AcceptedBy(cap, s, e, layer));
    EmptyIsNeutral(AllBytes(batches));
    Associative(AllBytes(batches), Payloads(s.bufs[layer]), AcceptedBy(cap, s, e, layer));
  }

  lemma AccountStep(cap: nat, stream: seq<Byte>, s: L.State, ops: seq<L.Op>, batches: seq<Batch>, e: Event, layer: nat)
    requires L.WellFormed(s) && EventOk(e) && layer < LAYER_MAX && Accounted(stream, s, ops, batches, layer)
    ensures Accounted(stream + AcceptedBy(cap, s, e, layer), Step(cap, s, e), ops + EventOps(s, e),
                      batches + BatchOf(s, e, layer), layer)
  {
    LogStep(ops, batches, s, e, layer);
    StreamStep(cap, stream, batches, s, e, layer);
  }

  /** Conservation over any run, with power cuts, remounts, explicit erases and driver failures:
      what was buffered at the start and accepted since is, in order, the batches that left the
      buffers and then what is buffered; the batches that were not lost are, in order, what mxfs_read
      returns from the programmed pages. */
  lemma {:induction false} EveryByteAccounted(cap: nat, s: L.State, es: seq<Event>, layer: nat)
    requires L.WellFormed(s) && EventsOk(es) && layer < LAYER_MAX
    ensures Accounted(Payloads(s.bufs[layer]) + Accepted(cap, s, es, layer), Run(cap, s, es), RunOps(cap, s, es),
                      Batches(cap, s, es, layer), layer)
  {
    var was := Payloads(s.bufs[layer]);
    EmptyIsNeutral(was);
    if es != [] {
      var before, e := es[..|es| - 1], es[|es| - 1];
      var s1 := Run(cap, s, before);
      EveryByteAccounted(cap, s, before, layer);
      AccountStep(cap, was + Accepted(cap, s, before, layer), s1, RunOps(cap, s, before),
                  Batches(cap, s, before, layer), e, layer);
      Associative(was, Accepted(cap, s, before, layer), AcceptedBy(cap, s1, e, layer));
    }
  }

  // ----- what a flush loses

  /** A flush leaves log plus buffers of every layer as they were. */
  predicate LosesNothing(s: L.State, drv: L.Driver)
    requires L.WellFormed(s)
  {
    var log := Programs(L.FlushOps(s, drv));
    && LogSized(log)
    && forall l | 0 <= l < LAYER_MAX ::
      LogBytes(log, l) + Payloads(L.Flush(s, drv).0.bufs[l]) == Payloads(s.bufs[l])
  }

  lemma FlushLogs(s: L.State, drv: L.Driver)
    requires L.WellFormed(s)
    ensures Programs(L.FlushOps(s, drv))
            == if AllEmpty(s.bufs) || !DriverServes(s, drv) then []
               else [L.Program(s.block, s.page, PageImage(s.bufs))]
  {
    if !AllEmpty(s.bufs) {
      if DriverServes(s, drv) {
        FlushTrace(s, []);
        EmptyIsNeutral(L.FlushOps(s, L.HEALTHY));
        EmptyIsNeutral([L.Program(s.block, s.page, PageImage(s.bufs))]);
        assert L.FlushOps(s, drv) == L.FlushOps(s, L.HEALTHY);
      } else {
        ProgramsOne(L.Erase(s.block));
      }
    }
  }

  lemma ServedFlushLosesNothing(s: L.State, drv: L.Driver)
    requires L.WellFormed(s) && (AllEmpty(s.bufs) || DriverServes(s, drv))
    ensures LosesNothing(s, drv)
  {
    FlushLogs(s, drv);
    forall l | 0 <= l < LAYER_MAX
      ensures LogSized(Programs(L.FlushOps(s, drv)))
      ensures LogBytes(Programs(L.FlushOps(s, drv)), l) + Payloads(L.Flush(s, drv).0.bufs[l]) == Payloads(s.bufs[l])
    {
      StepLogs(s, Flush(drv), l);
      EmptyIsNeutral(Payloads(s.bufs[l]));
      assert Payloads(L.Flush(s, drv).0.bufs[l]) == [];
    }
  }

  lemma UnservedFlushLoses(s: L.State, drv: L.Driver)
    requires L.WellFormed(s) && !AllEmpty(s.bufs) && !DriverServes(s, drv)
    ensures !LosesNothing(s, drv)
  {
    FlushLogs(s, drv);
    var l :| 0 <= l < LAYER_MAX && s.bufs[l] != [];
    PayloadsEmptyIff(l, s.bufs[l]);
    assert Payloads(L.Flush(s, drv).0.bufs[l]) == [];
  }

  /** The buffers are drained before the driver is asked: a flush loses nothing iff there is nothing to
      write or the driver carries out the due erase and the program; otherwise it returns an error,
      programs no page and leaves no layer buffered. */
  lemma FlushLosesIff(s: L.State, drv: L.Driver)
    requires L.WellFormed(s)
    ensures LosesNothing(s, drv) <==> AllEmpty(s.bufs) || DriverServes(s, drv)
    ensures LosesNothing(s, drv) <==> L.Flush(s, drv).1 == OK
    ensures !LosesNothing(s, drv) ==> AllEmpty(L.Flush(s, drv).0.bufs) && Programs(L.FlushOps(s, drv)) == []
  {
    FlushLogs(s, drv);
    if AllEmpty(s.bufs) || DriverServes(s, drv) {
      ServedFlushLosesNothing(s, drv);
    } else {
      UnservedFlushLoses(s, drv);
    }
  }

  /** After an automatic flush there is always room, and only the new record is buffered. */
  lemma FlushedAppend(cap: nat, s: L.State, layer: nat, time: U64, payload: seq<Byte>, drv: L.Driver)
    requires L.WellFormed(s) && L.FlushesNow(s, layer, |payload|) && TIME_SIZE + |payload| <= cap
    requires !AllEmpty(s.bufs)
    ensures L.Append(cap, s, layer, time, payload, drv).1 == OK
    ensures L.Append(cap, s, layer, time, payload, drv).0.bufs == L.EmptyBufs()[layer := [Rec(time, payload)]]
  {
    L.FlushWellFormed(s, drv);
    var bufs := L.Flush(s, drv).0.bufs;
    assert bufs == L.EmptyBufs() && bufs[layer] == [];
    assert bufs[layer] + [Rec(time, payload)] == [Rec(time, payload)];
  }

  /** mxfs_append ignores the result of its automatic flush: it reports success and keeps the new
      record, although all that was buffered is lost iff the driver does not serve that flush. */
  lemma AppendHidesLoss(cap: nat, s: L.State, layer: nat, time: U64, payload: seq<Byte>, drv: L.Driver)
    requires L.WellFormed(s) && L.FlushesNow(s, layer, |payload|) && TIME_SIZE + |payload| <= cap
    ensures L.Append(cap, s, layer, time, payload, drv).1 == OK
    ensures L.Append(cap, s, layer, time, payload, drv).0.bufs == L.EmptyBufs()[layer := [Rec(time, payload)]]
    ensures LosesNothing(s, drv) <==> DriverServes(s, drv)
  {
    AutoFlushHasData(s, layer, |payload|);
    FlushedAppend(cap, s, layer, time, payload, drv);
    FlushLosesIff(s, drv);
  }

  /** Which batches are lost: those the driver does not serve, and those whose program a power cut
      comes before. */
  lemma BatchWrittenIff(s: L.State, e: Event, layer: nat)
    requires L.WellFormed(s) && EventOk(e) && layer < LAYER_MAX && Drains(s, e)
    ensures BatchOf(s, e, layer)[0].written
            <==> !AllEmpty(s.bufs)
                 && match e
                    case Append(_, _, _, drv) => DriverServes(s, drv)
                    case Flush(drv) => DriverServes(s, drv)
                    case PowerCut(calls) => calls >= if s.status[s.block].invalid then 2 else 1
                    case UserErase(_, _) => false
  {
    match e
    case Append(_, _, _, drv) => FlushLogs(s, drv);
    case Flush(drv) => FlushLogs(s, drv);
    case PowerCut(calls) => CutLogs(s, calls);
  }

  lemma CutLogs(s: L.State, calls: nat)
    requires L.WellFormed(s)
    ensures Programs(EventOps(s, PowerCut(calls))) != []
            <==> !AllEmpty(s.bufs) && calls >= if s.status[s.block].invalid then 2 else 1
  {
    if !AllEmpty(s.bufs) {
      var ops := L.FlushOps(s, L.HEALTHY);
      FlushOpsSplit(s);
      if calls >= |ops| {
        WholeCut(s, calls);
      } else if calls == 1 {
        assert ops[..1] == [L.Erase(s.block)];
        ProgramsOne(L.Erase(s.block));
      }
    }
  }

  lemma WholeCut(s: L.State, calls: nat)
    requires L.WellFormed(s) && !AllEmpty(s.bufs) && calls >= |L.FlushOps(s, L.HEALTHY)|
    ensures Programs(EventOps(s, PowerCut(calls))) != []
  {
    var ops := L.FlushOps(s, L.HEALTHY);
    assert ops[..|ops|] == ops;
    FlushLogs(s, L.HEALTHY);
  }

  // ----- one session

  /** In a session without failures no batch is lost. */
  lemma QuietBatch(s: L.State, e: Event, layer: nat)
    requires L.WellFormed(s) && EventOk(e) && Quiet([e]) && layer < LAYER_MAX
    ensures var more := BatchOf(s, e, layer); more == [] || more[0].written || more[0].bytes == []
  {
    assert [e][0] == e;
    FlushLogs(s, L.HEALTHY);
    if AllEmpty(s.bufs) {
      assert Payloads(s.bufs[layer]) == [];
    }
  }

  lemma {:induction false} QuietWritesAll(cap: nat, s: L.State, es: seq<Event>, layer: nat)
    requires L.WellFormed(s) && EventsOk(es) && Quiet(es) && layer < LAYER_MAX
    ensures WrittenBytes(Batches(cap, s, es, layer)) == AllBytes(Batches(cap, s, es, layer))
  {
    if es != [] {
      var before, e := es[..|es| - 1], es[|es| - 1];
      QuietWritesAll(cap, s, before, layer);
      QuietBatch(Run(cap, s, before), e, layer);
      BatchAdded(Batches(cap, s, before, layer), BatchOf(Run(cap, s, before), e, layer));
    }
  }

  /** What mxfs_read returns from the pages of flushes from .. end-1 as they are on the flash. */
  function ReadBack(r: nat, d: L.Disk, from: nat, end: nat, layer: nat): seq<Byte>
    requires L.DiskShape(d) && InData(r) && from <= end
  {
    if from == end then []
    else
      LaneOfBlock(r, end - 1, r);
      ReadBack(r, d, from, end - 1, layer) + LayerBytes(d[BlockAt(r, end - 1)][PageOf(end - 1)], layer)
  }

  /** The slot of flush `m` holds the page that was programmed. */
  predicate SlotHolds(r: nat, d: L.Disk, m: nat, op: L.Op)
    requires L.DiskShape(d) && InData(r) && op.Program? && |op.data| <= PAGE_SIZE
  {
    LaneOfBlock(r, m, r);
    d[BlockAt(r, m)][PageOf(m)] == Padded(op.data)
  }

  /** From flush `first` on, the flash holds the logged pages. */
  predicate Retained(r: nat, d: L.Disk, log: seq<L.Op>, first: nat)
  {
    && L.DiskShape(d) && InData(r) && LogSized(log) && first <= |log|
    && forall m | first <= m < |log| :: SlotHolds(r, d, m, log[m])
  }

  lemma WindowRetains(d: L.Disk, now: L.Disk, log: seq<L.Op>)
    requires L.DiskShape(d) && L.DiskShape(now) && LogOk(L.MountBlock(d), log) && Window(d, now, log)
    ensures Retained(L.MountBlock(d), now, log, First(|log|))
  {
    FirstInLog(|log|);
    forall m | First(|log|) <= m < |log| ensures SlotHolds(L.MountBlock(d), now, m, log[m]) {
      WindowSlides(d, now, log, m);
      IntactIff(|log|, m);
    }
  }

  /** Up to flush `n`, the log is what was dropped before `first` and what is read back from there. */
  predicate SplitsAt(r: nat, d: L.Disk, log: seq<L.Op>, first: nat, n: nat, layer: nat)
    requires Retained(r, d, log, first)
  {
    first <= n <= |log|
    && LogBytes(log[..n], layer) == LogBytes(log[..first], layer) + ReadBack(r, d, first, n, layer)
  }

  lemma ReadBackIsLog(r: nat, d: L.Disk, log: seq<L.Op>, first: nat, layer: nat)
    requires Retained(r, d, log, first)
    ensures SplitsAt(r, d, log, first, |log|, layer)
  {
    EmptyIsNeutral(LogBytes(log[..first], layer));
    for n := first to |log|
      invariant SplitsAt(r, d, log, first, n, layer)
    {
      ReadBackGrows(r, d, log, first, n, layer);
    }
  }

  lemma ReadBackGrows(r: nat, d: L.Disk, log: seq<L.Op>, first: nat, n: nat, layer: nat)
    requires Retained(r, d, log, first) && n < |log| && SplitsAt(r, d, log, first, n, layer)
    ensures SplitsAt(r, d, log, first, n + 1, layer)
  {
    assert SlotHolds(r, d, n, log[n]);
    LogPrefixGrows(log, n, layer);
    Associative(LogBytes(log[..first], layer), ReadBack(r, d, first, n, layer),
                LayerBytes(Padded(log[n].data), layer));
  }

  lemma WindowSplitsLog(d: L.Disk, now: L.Disk, log: seq<L.Op>, layer: nat)
    requires L.DiskShape(d) && L.DiskShape(now) && LogOk(L.MountBlock(d), log) && Window(d, now, log)
    ensures var n := |log|;
            && LogSized(log) && First(n) <= n
            && LogBytes(log, layer) == LogBytes(log[..First(n)], layer) + ReadBack(L.MountBlock(d), now, First(n), n, layer)
            && (n <= PAGE_COUNT * DATA_BLOCKS ==> First(n) == 0 && LogBytes(log[..First(n)], layer) == [])
  {
    FirstInLog(|log|);
    WindowRetains(d, now, log);
    ReadBackIsLog(L.MountBlock(d), now, log, First(|log|), layer);
    assert log[..|log|] == log;
  }

  lemma LogPrefixGrows(log: seq<L.Op>, n: nat, layer: nat)
    requires LogSized(log) && n < |log|
    ensures LogBytes(log[..n + 1], layer) == LogBytes(log[..n], layer) + LayerBytes(Padded(log[n].data), layer)
  {
    TakeOneMore(log, n);
    LogGrows(log[..n], log[n], layer);
  }

  lemma TakeOneMore<T>(s: seq<T>, n: nat)
    requires n < |s|
    ensures s[..n + 1] == s[..n] + [s[n]]
  {
  }

  /** Conservation in a session on any chip in order: whatever was appended to a layer is what the
      flushes the window has already dropped held, then what mxfs_read returns from the pages still on
      the flash in log order, then what is still buffered; nothing is dropped during the first pass. */
  lemma EndToEnd(cap: nat, d: L.Disk, es: seq<Event>, layer: nat)
    requires DataOk(d) && Quiet(es) && EventsOk(es) && layer < LAYER_MAX
    ensures InData(L.MountBlock(d))
    ensures var s0 := L.Mount(d);
            var s, log := Run(cap, s0, es), Programs(RunOps(cap, s0, es));
            var n := |log|;
            && LogSized(log) && First(n) <= n
            && Accepted(cap, s0, es, layer)
               == LogBytes(log[..First(n)], layer) + ReadBack(L.MountBlock(d), s.disk, First(n), n, layer)
                  + Payloads(s.bufs[layer])
            && (n <= PAGE_COUNT * DATA_BLOCKS ==> First(n) == 0 && LogBytes(log[..First(n)], layer) == [])
  {
    var s0 := L.Mount(d);
    RingRun(cap, d, es);
    EveryByteAccounted(cap, s0, es, layer);
    QuietWritesAll(cap, s0, es, layer);
    WindowSplitsLog(d, Run(cap, s0, es).disk, Programs(RunOps(cap, s0, es)), layer);
    EmptyIsNeutral(Accepted(cap, s0, es, layer));
    assert Payloads(s0.bufs[layer]) == [];
  }

  lemma FirstInLog(n: nat)
    ensures First(n) <= n
    ensures n <= PAGE_COUNT * DATA_BLOCKS ==> First(n) == 0
  {
  }

  /** Wear: in a session of any length on any chip in order, the erases of any two data blocks differ
      by at most one. */
  lemma EvenWear(cap: nat, d: L.Disk, es: seq<Event>, b: nat, c: nat)
    requires DataOk(d) && Quiet(es) && EventsOk(es) && InData(b) && InData(c)
    ensures var ops := RunOps(cap, L.Mount(d), es);
            -1 <= EraseCount(ops, b) - EraseCount(ops, c) <= 1
  {
    RingRun(cap, d, es);
    RowsErasedClose(d, |Programs(RunOps(cap, L.Mount(d), es))|, b);
    RowsErasedClose(d, |Programs(RunOps(cap, L.Mount(d), es))|, c);
  }

  lemma RowsErasedClose(d: L.Disk, n: nat, b: nat)
    requires L.DiskShape(d) && InData(b) && InData(L.MountBlock(d))
    ensures n == 0 ==> Erased(d, n, b) == 0
    ensures n > 0 ==> (n - 1) / PAGE_COUNT / DATA_BLOCKS <= Erased(d, n, b) <= (n - 1) / PAGE_COUNT / DATA_BLOCKS + 1
  {
    LaneZeroIff(L.MountBlock(d), b);
    RowsClose(n, Lane(L.MountBlock(d), b));
  }

  lemma RowsClose(n: nat, j: nat)
    requires j < DATA_BLOCKS
    ensures n == 0 ==> RowsErased(n, j) == 0
    ensures n > 0 ==>
              var turns := (n - 1) / PAGE_COUNT / DATA_BLOCKS;
              if j == 0 then RowsErased(n, j) == turns else turns <= RowsErased(n, j) <= turns + 1
  {
  }
}

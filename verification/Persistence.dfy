/** What is on the flash stays there until its block is erased, over whole runs with power cuts and
    remounts; with the account of every batch this is conservation across remounts. */
module Persistence {
  import opened Layout
  import opened PageEncoder
  import opened Runs
  import opened EraseDiscipline
  import opened Conservation
  import L = LogFs

  /** The data of a page program is the image of some buffers with records. */
  ghost predicate IsImage(data: seq<Byte>)
  {
    |data| <= PAGE_SIZE && exists bufs :: Fits(bufs) && !AllEmpty(bufs) && data == PageImage(bufs)
  }

  ghost predicate Images(ops: seq<L.Op>)
  {
    forall i | 0 <= i < |ops| && ops[i].Program? :: IsImage(ops[i].data)
  }

  lemma FlushImages(s: L.State, drv: L.Driver)
    requires L.WellFormed(s)
    ensures Images(L.FlushOps(s, drv))
  {
  }

  lemma EventImages(s: L.State, e: Event)
    requires L.WellFormed(s) && EventOk(e)
    ensures Images(EventOps(s, e))
  {
    match e
    case Append(_, _, _, drv) => FlushImages(s, drv);
    case Flush(drv) => FlushImages(s, drv);
    case UserErase(_, _) =>
    case PowerCut(_) => FlushImages(s, L.HEALTHY);
  }

  lemma ImagesConcat(a: seq<L.Op>, b: seq<L.Op>)
    requires Images(a) && Images(b)
    ensures Images(a + b)
  {
  }

  lemma {:induction false} RunImages(cap: nat, s: L.State, es: seq<Event>)
    requires L.WellFormed(s) && EventsOk(es)
    ensures Images(RunOps(cap, s, es))
  {
    if es != [] {
      var before, e := es[..|es| - 1], es[|es| - 1];
      RunImages(cap, s, before);
      EventImages(Run(cap, s, before), e);
      ImagesConcat(RunOps(cap, s, before), EventOps(Run(cap, s, before), e));
    }
  }

  predicate ErasedFrom(ops: seq<L.Op>, from: nat, b: nat)
  {
    exists k | from <= k < |ops| :: ops[k] == L.Erase(b)
  }

  /** One call on a page that holds data: only the erase of its block changes it. */
  lemma CallKeepsPage(d: L.Disk, op: L.Op, b: nat, p: nat)
    requires L.DiskShape(d) && L.OpOk(op) && b < BLOCK_COUNT && p < PAGE_COUNT
    requires op.Program? ==> Blank(d[op.block][op.page])
    requires !Blank(d[b][p]) && op != L.Erase(b)
    ensures L.Apply(d, op)[b][p] == d[b][p]
  {
  }

  /** A page with data survives every later call that hits blank pages only, short of an erase. */
  lemma {:induction false} PageSurvives(d: L.Disk, ops: seq<L.Op>, from: nat, b: nat, p: nat)
    requires L.DiskShape(d) && L.OpsOk(ops) && BlankTargets(d, ops) && from <= |ops|
    requires b < BLOCK_COUNT && p < PAGE_COUNT && !ErasedFrom(ops, from, b)
    requires !Blank(L.ApplyAll(d, ops[..from])[b][p])
    ensures L.ApplyAll(d, ops)[b][p] == L.ApplyAll(d, ops[..from])[b][p]
    decreases |ops|
  {
    if from == |ops| {
      assert ops[..from] == ops;
    } else {
      var before, op := ops[..|ops| - 1], ops[|ops| - 1];
      assert before[..from] == ops[..from];
      assert forall k | from <= k < |before| :: before[k] == ops[k];
      PageSurvives(d, before, from, b, p);
      CallKeepsPage(L.ApplyAll(d, before), op, b, p);
    }
  }

  /** A program on a blank page leaves exactly the image there. */
  lemma ProgramLands(d: L.Disk, ops: seq<L.Op>, i: nat)
    requires L.DiskShape(d) && L.OpsOk(ops) && BlankTargets(d, ops) && i < |ops| && ops[i].Program?
    requires IsImage(ops[i].data)
    ensures var page := L.ApplyAll(d, ops[..i + 1])[ops[i].block][ops[i].page];
            page == Padded(ops[i].data) && !Blank(page)
  {
    BlankTargetsPrefix(d, ops, i + 1);
    assert ops[..i + 1][..i] == ops[..i];
    OverwriteBlank(ops[i].data);
    var bufs :| Fits(bufs) && !AllEmpty(bufs) && ops[i].data == PageImage(bufs);
    FlushedPageIsUsed(bufs);
  }

  /** The trace of a careful run programs images onto blank pages. */
  lemma CarefulTrace(cap: nat, d: L.Disk, es: seq<Event>)
    requires DataOk(d) && EventsOk(es) && CarefulRun(cap, L.Mount(d), es)
    ensures var ops := RunOps(cap, L.Mount(d), es);
            BlankTargets(d, ops) && Images(ops) && Run(cap, L.Mount(d), es).disk == L.ApplyAll(d, ops)
  {
    MountGivesInv(d);
    CarefulRunKeepsInv(cap, L.Mount(d), es);
    DiskOfRun(cap, L.Mount(d), es);
    RunImages(cap, L.Mount(d), es);
  }

  lemma ProgramStays(d: L.Disk, ops: seq<L.Op>, i: nat)
    requires L.DiskShape(d) && L.OpsOk(ops) && BlankTargets(d, ops) && Images(ops)
    requires i < |ops| && ops[i].Program? && !ErasedFrom(ops, i + 1, ops[i].block)
    ensures |ops[i].data| <= PAGE_SIZE && L.ApplyAll(d, ops)[ops[i].block][ops[i].page] == Padded(ops[i].data)
  {
    ProgramLands(d, ops, i);
    PageSurvives(d, ops, i + 1, ops[i].block, ops[i].page);
  }

  /** From the mount of any chip in order, over every careful run: a programmed page is exactly what was
      programmed until its block is erased. */
  lemma ProgrammedStays(cap: nat, d: L.Disk, es: seq<Event>, i: nat)
    requires DataOk(d) && EventsOk(es) && CarefulRun(cap, L.Mount(d), es)
    ensures var s, ops := Run(cap, L.Mount(d), es), RunOps(cap, L.Mount(d), es);
            i < |ops| && ops[i].Program? && !ErasedFrom(ops, i + 1, ops[i].block)
            ==> |ops[i].data| <= PAGE_SIZE && s.disk[ops[i].block][ops[i].page] == Padded(ops[i].data)
  {
    var ops := RunOps(cap, L.Mount(d), es);
    CarefulTrace(cap, d, es);
    if i < |ops| && ops[i].Program? && !ErasedFrom(ops, i + 1, ops[i].block) {
      ProgramStays(d, ops, i);
    }
  }

  /** ... and so is every page the chip held when it was mounted. */
  lemma MountedStays(cap: nat, d: L.Disk, es: seq<Event>, b: nat, p: nat)
    requires DataOk(d) && EventsOk(es) && CarefulRun(cap, L.Mount(d), es)
    requires b < BLOCK_COUNT && p < PAGE_COUNT && !Blank(d[b][p])
    ensures !ErasedFrom(RunOps(cap, L.Mount(d), es), 0, b) ==> Run(cap, L.Mount(d), es).disk[b][p] == d[b][p]
  {
    var ops := RunOps(cap, L.Mount(d), es);
    CarefulTrace(cap, d, es);
    assert ops[..0] == [];
    if !ErasedFrom(ops, 0, b) {
      PageSurvives(d, ops, 0, b, p);
    }
  }

  /** Every page of the trace that was not erased since is on the flash as it was programmed. */
  predicate OnFlash(d: L.Disk, ops: seq<L.Op>)
    requires L.DiskShape(d) && L.OpsOk(ops)
  {
    forall i | 0 <= i < |ops| && ops[i].Program? && !ErasedFrom(ops, i + 1, ops[i].block) ::
      |ops[i].data| <= PAGE_SIZE && d[ops[i].block][ops[i].page] == Padded(ops[i].data)
  }

  /** Conservation across power cuts and remounts: whatever was accepted for a layer is, in order, the
      batches that left the buffers and what is still buffered; the batches that were not lost are what
      mxfs_read returns from the programmed pages, and each of these pages is unchanged on the flash
      until its block is erased. */
  lemma ConservedAcrossCuts(cap: nat, d: L.Disk, es: seq<Event>, layer: nat)
    requires DataOk(d) && EventsOk(es) && CarefulRun(cap, L.Mount(d), es) && layer < LAYER_MAX
    ensures var s0 := L.Mount(d);
            && Accounted(Accepted(cap, s0, es, layer), Run(cap, s0, es), RunOps(cap, s0, es),
                         Batches(cap, s0, es, layer), layer)
            && OnFlash(Run(cap, s0, es).disk, RunOps(cap, s0, es))
  {
    var s0 := L.Mount(d);
    EveryByteAccounted(cap, s0, es, layer);
    assert Payloads(s0.bufs[layer]) == [];
    EmptyIsNeutral(Accepted(cap, s0, es, layer));
    forall i | 0 <= i < |RunOps(cap, s0, es)|
      ensures var s, ops := Run(cap, s0, es), RunOps(cap, s0, es);
              ops[i].Program? && !ErasedFrom(ops, i + 1, ops[i].block)
              ==> |ops[i].data| <= PAGE_SIZE && s.disk[ops[i].block][ops[i].page] == Padded(ops[i].data)
    {
      ProgrammedStays(cap, d, es, i);
    }
  }
}

/** Which blocks mxfs_timerange_by_block reports at all, session by session, and that the ranges it
    reports are the spans of the pages that were flushed. */
module BlockReports {
  import opened Layout
  import opened PageFormat
  import opened PageEncoder
  import opened PageTimes
  import opened Runs
  import opened EraseDiscipline
  import opened RingLog
  import opened Queries
  import L = LogFs

  lemma DataBlockReadable(d: L.Disk, b: nat)
    requires DataOk(d) && BLOCK_START_DATA_AREA <= b < BLOCK_COUNT
    ensures BlockReadable(d, b)
  {
    forall p | 0 <= p < PAGE_COUNT ensures DataChain(d[b][p]) {
      DataPagesAreChains(d, b, p);
    }
  }

  /** Does block `b` carry the "used" flag after n flushes of a session that mounted `d`? Only if the
      cursor has just entered it, or the mount found it used and the ring has not reached it. */
  predicate Reports(d: L.Disk, n: nat, b: nat)
    requires L.DiskShape(d) && InData(b) && InData(L.MountBlock(d))
  {
    var r := L.MountBlock(d);
    (n > 0 && n % PAGE_COUNT == 0 && b == BlockAt(r, n)) || (L.UsedBlock(d[b]) && n <= PAGE_COUNT * Lane(r, b))
  }

  /** Right after a flush its block reports nothing, whatever the driver answered: the "used" flag is
      cleared with the write. */
  lemma FlushSilencesBlock(s: L.State, drv: L.Driver, layer: nat)
    requires Inv(s) && !AllEmpty(s.bufs) && !EraseRefused(s, drv)
    ensures var s' := L.Flush(s, drv).0;
            && BlockReadable(s'.disk, s.block)
            && BlockRanges(s'.disk, s'.status[s.block].invalid, layer, s.block, PAGE_COUNT) == []
  {
    FlushKeepsInv(s, drv);
    InvGivesDataOk(L.Flush(s, drv).0);
    DataBlockReadable(L.Flush(s, drv).0.disk, s.block);
    FlushClearsFlag(s, drv);
  }

  /** The cursor advance marks another block, if any. */
  lemma AdvanceLeavesFlag(s: L.State, flags: bv8)
    requires L.WellFormed(s) && !s.status[s.block].invalid
    ensures L.WellFormed(L.Advance(s, flags)) && !L.Advance(s, flags).status[s.block].invalid
  {
  }

  lemma FlushClearsFlag(s: L.State, drv: L.Driver)
    requires L.WellFormed(s) && !AllEmpty(s.bufs)
    ensures !L.Flush(s, drv).0.status[s.block].invalid
  {
    if DriverServes(s, drv) {
      FlushIsProgramThenAdvance(s, drv);
      AdvanceLeavesFlag(Programmed(s), L.PageFlags(s.bufs, LAYER_MAX));
    } else {
      assert L.Flush(s, drv).0 == L.Drained(s, drv);
    }
  }

  /** Which blocks report in a session on any chip in order: all their ranges or nothing. */
  lemma SessionReports(cap: nat, d: L.Disk, es: seq<Event>, layer: nat, b: nat)
    requires DataOk(d) && Quiet(es) && EventsOk(es) && InData(b)
    ensures InData(L.MountBlock(d))
    ensures var s, n := Run(cap, L.Mount(d), es), |Programs(RunOps(cap, L.Mount(d), es))|;
            && BlockReadable(s.disk, b)
            && BlockRanges(s.disk, s.status[b].invalid, layer, b, PAGE_COUNT)
               == if Reports(d, n, b) then Ranges(s.disk, layer, b, PAGE_COUNT) else []
  {
    var s := Run(cap, L.Mount(d), es);
    RingRun(cap, d, es);
    MountGivesInv(d);
    QuietIsCareful(cap, L.Mount(d), es);
    CarefulRunKeepsInv(cap, L.Mount(d), es);
    InvGivesDataOk(s);
    DataBlockReadable(s.disk, b);
  }

  /** A fresh session reports no block but the one its cursor has just entered. */
  lemma FreshReportsIff(n: nat, b: nat)
    requires InData(b)
    ensures L.MountBlock(L.BlankDisk()) == BLOCK_START_DATA_AREA
    ensures Reports(L.BlankDisk(), n, b)
            <==> n > 0 && n % PAGE_COUNT == 0 && b == BLOCK_START_DATA_AREA + n / PAGE_COUNT % DATA_BLOCKS
  {
    BlankPageHasNoRecords(0, PAGE_SIZE, EMPTY_SPAN);
    assert !L.UsedBlock(L.BlankDisk()[BLOCK_START_DATA_AREA]);
    assert !L.UsedBlock(L.BlankDisk()[b]);
  }

  lemma PageWithBytesIsUsed(page: seq<Byte>, layer: nat)
    requires LayerBytes(page, layer) != []
    ensures !Blank(page)
  {
    BlankPageHasNoRecords(layer, PAGE_SIZE, EMPTY_SPAN);
  }

  /** A remount sets the flag of every block that holds data ... */
  lemma RemountMarksUsed(d: L.Disk, layer: nat, b: nat, p: nat)
    requires DataOk(d) && BLOCK_START_DATA_AREA <= b < BLOCK_COUNT && p < PAGE_COUNT
    requires LayerBytes(d[b][p], layer) != []
    ensures L.MountStatus(d, BLOCK_COUNT)[b].invalid
  {
    PageWithBytesIsUsed(d[b][p], layer);
    assert BlockOk(d[b], AnyIndex());
    UnusedBlockIsBlank(d[b], AnyIndex());
  }

  lemma CountOfChain(page: seq<Byte>, layer: nat)
    requires DataChain(page) && ReadInBounds(page) && layer < LAYER_MAX
    ensures |LayerBytes(page, layer)| == TimesWalk(page, layer, EMPTY_SPAN).count * RecordSize(layer)
  {
    ParsersAgree(page, layer, PAGE_SIZE, EMPTY_SPAN);
  }

  /** ... so that every page that holds records of the layer is reported, with their exact count ... */
  lemma ReportedCount(d: L.Disk, layer: nat, b: nat, p: nat)
    requires DataOk(d) && layer < LAYER_MAX && BLOCK_START_DATA_AREA <= b < BLOCK_COUNT && p < PAGE_COUNT
    ensures DataChain(d[b][p])
    ensures |LayerBytes(d[b][p], layer)| == SpanAt(d, layer, b, p).count * RecordSize(layer)
  {
    DataPagesAreChains(d, b, p);
    CountOfChain(d[b][p], layer);
  }

  /** One range per page that holds the layer, and none for the other pages. */
  lemma {:induction false} RangesMember(d: L.Disk, layer: nat, block: nat, n: nat, t: TimeRange)
    requires BlockReadable(d, block) && n <= PAGE_COUNT
    ensures t in Ranges(d, layer, block, n)
            <==> t.page < n
                 && var s := SpanAt(d, layer, block, t.page);
                 s.count > 0 && t == TimeRange(block, t.page, s.start, s.last, s.count)
  {
    if n > 0 {
      RangesMember(d, layer, block, n - 1, t);
    }
  }

  /** ... and with the times of the page that was flushed: on a mounted chip the one range of a page
      flushed from `bufs` is the span of the flushed page, and it is reported iff the page holds the
      layer. */
  lemma ReportedTimes(d: L.Disk, layer: nat, b: nat, bufs: seq<seq<Rec>>, t: TimeRange)
    requires DataOk(d) && layer < LAYER_MAX && InData(b) && t.page < PAGE_COUNT
    requires Fits(bufs) && !AllEmpty(bufs) && d[b][t.page] == Padded(PageImage(bufs))
    ensures BlockReadable(d, b)
    ensures t in BlockRanges(d, L.Mount(d).status[b].invalid, layer, b, PAGE_COUNT)
            <==> bufs[layer] != []
                 && var s := PageSpan(bufs, layer); t == TimeRange(b, t.page, s.start, s.last, s.count)
  {
    DataBlockReadable(d, b);
    FlushedPageIsUsed(bufs);
    assert BlockOk(d[b], AnyIndex());
    UnusedBlockIsBlank(d[b], AnyIndex());
    RangesMember(d, layer, b, PAGE_COUNT, t);
    PageSpanCount(bufs, layer);
  }
}

/** Erase before program, over whole runs with power cuts: every page program hits a blank page,
    the programmed pages of a block form a prefix, and the index never misses a page. */
module EraseDiscipline {
  import opened Layout
  import opened PageFormat
  import opened PageEncoder
  import opened Runs
  import L = LogFs

  predicate Blank(page: seq<Byte>) { page == BlankPage() }

  /** A page as a flush leaves it on blank flash. */
  ghost predicate FlushedPage(page: seq<Byte>)
  {
    exists bufs :: Fits(bufs) && !AllEmpty(bufs) && page == Padded(PageImage(bufs))
  }

  /** The bytes mxfs_read returns for a layer of the page. */
  function LayerBytes(page: seq<Byte>, layer: nat): seq<Byte>
  {
    if ReadInBounds(page) then ReadWalk(page, layer, PAGE_SIZE) else []
  }

  /** An index byte is either the mount-time wildcard or tells exactly which layers can be read. */
  predicate IndexOk(page: seq<Byte>, index: bv8)
  {
    Blank(page) || index == 0xFF
    || forall l | 0 <= l < LAYER_MAX :: index & L.Flag(l) != 0 <==> LayerBytes(page, l) != []
  }

  ghost predicate BlockOk(blk: L.Block, index: seq<bv8>)
  {
    && |blk| == |index| == PAGE_COUNT
    && (forall p | 0 <= p < PAGE_COUNT :: (Blank(blk[p]) || FlushedPage(blk[p])) && IndexOk(blk[p], index[p]))
    && (forall p, q | 0 <= p < q < PAGE_COUNT && !Blank(blk[q]) :: !Blank(blk[p]))
  }

  predicate BlankBlock(blk: L.Block)
  {
    forall p | 0 <= p < |blk| :: Blank(blk[p])
  }

  /** The cursor stands at the first blank page of its block, unless the block is marked for erase. */
  predicate CursorOk(s: L.State)
    requires L.WellFormed(s)
  {
    var blk := s.disk[s.block];
    if s.status[s.block].invalid then s.page == 0
    else forall p | 0 <= p < PAGE_COUNT :: Blank(blk[p]) <==> s.page <= p
  }

  ghost predicate Inv(s: L.State)
  {
    && L.WellFormed(s)
    && CursorOk(s)
    && forall b | BLOCK_START_DATA_AREA <= b < BLOCK_COUNT :: BlockOk(s.disk[b], s.status[b].pages)
  }

  // ----- one page and one block

  lemma {:induction false} PayloadsEmptyIff(layer: nat, recs: seq<Rec>)
    requires RecsOk(layer, recs)
    ensures Payloads(recs) == [] <==> recs == []
  {
    PayloadsLength(layer, recs);
  }

  lemma FlagsAreDistinct(a: nat, b: nat, x: bv8)
    requires a < LAYER_MAX && b < LAYER_MAX
    ensures (x | L.Flag(a)) & L.Flag(b) != 0 <==> (a == b || x & L.Flag(b) != 0)
    ensures x & 0x03 == 0 ==> (x | L.Flag(a)) & 0x03 == 0
  {
  }

  lemma {:induction false} PageFlagsTell(bufs: seq<seq<Rec>>, n: nat, layer: nat)
    requires n <= LAYER_MAX == |bufs| && layer < LAYER_MAX
    ensures L.PageFlags(bufs, n) & L.Flag(layer) != 0 <==> (layer < n && bufs[layer] != [])
    ensures L.PageFlags(bufs, n) & 0x03 == 0
  {
    if n > 0 {
      PageFlagsTell(bufs, n - 1, layer);
      FlagsAreDistinct(n - 1, layer, L.PageFlags(bufs, n - 1));
    }
  }

  lemma FlushedPageIsUsed(bufs: seq<seq<Rec>>)
    requires Fits(bufs) && !AllEmpty(bufs)
    ensures var page := Padded(PageImage(bufs)); !Blank(page) && HasMagic(page)
  {
    var layer :| 0 <= layer < LAYER_MAX && bufs[layer] != [];
    PageRoundTrip(bufs, layer, PAGE_SIZE, EMPTY_SPAN);
    PayloadsEmptyIff(layer, bufs[layer]);
    BlankPageHasNoRecords(layer, PAGE_SIZE, EMPTY_SPAN);
  }

  /** The index byte, bit by bit: layers 0 to 5 are bits 2 to 7, the low bits stay clear. */
  lemma IndexBits(bufs: seq<seq<Rec>>)
    requires |bufs| == LAYER_MAX
    ensures var x := L.PageFlags(bufs, LAYER_MAX);
            && x & 0x03 == 0
            && (x & 0x04 != 0 <==> bufs[0] != []) && (x & 0x08 != 0 <==> bufs[1] != [])
            && (x & 0x10 != 0 <==> bufs[2] != []) && (x & 0x20 != 0 <==> bufs[3] != [])
            && (x & 0x40 != 0 <==> bufs[4] != []) && (x & 0x80 != 0 <==> bufs[5] != [])
  {
    PageFlagsTell(bufs, LAYER_MAX, 0);
    PageFlagsTell(bufs, LAYER_MAX, 1);
    PageFlagsTell(bufs, LAYER_MAX, 2);
    PageFlagsTell(bufs, LAYER_MAX, 3);
    PageFlagsTell(bufs, LAYER_MAX, 4);
    PageFlagsTell(bufs, LAYER_MAX, 5);
  }

  /** What mxfs_flush stores in the index is exact for the page it writes. */
  lemma FlushedIndexOk(bufs: seq<seq<Rec>>)
    requires Fits(bufs)
    ensures var page, index := Padded(PageImage(bufs)), L.PageFlags(bufs, LAYER_MAX);
            && index != 0xFF
            && forall l | 0 <= l < LAYER_MAX :: index & L.Flag(l) != 0 <==> LayerBytes(page, l) != []
  {
    PageFlagsTell(bufs, LAYER_MAX, 0);
    forall l | 0 <= l < LAYER_MAX
      ensures L.PageFlags(bufs, LAYER_MAX) & L.Flag(l) != 0 <==> LayerBytes(Padded(PageImage(bufs)), l) != []
    {
      ImageBytes(bufs, l);
      PageFlagsTell(bufs, LAYER_MAX, l);
      PayloadsEmptyIff(l, bufs[l]);
    }
  }

  /** mxfs_read of a flushed page returns the payloads the layer had in its buffer. */
  lemma ImageBytes(bufs: seq<seq<Rec>>, layer: nat)
    requires Fits(bufs) && layer < LAYER_MAX
    ensures LayerBytes(Padded(PageImage(bufs)), layer) == Payloads(bufs[layer])
  {
    PageRoundTrip(bufs, layer, PAGE_SIZE, EMPTY_SPAN);
  }

  lemma OverwriteBlank(image: seq<Byte>)
    requires |image| <= PAGE_SIZE
    ensures L.Overwrite(BlankPage(), image) == Padded(image)
  {
  }

  lemma BlankBlockOk(index: seq<bv8>)
    requires |index| == PAGE_COUNT
    ensures BlockOk(L.BlankBlock(), index) && BlankBlock(L.BlankBlock())
  {
  }

  /** A flush onto the first blank page keeps a block in order. */
  lemma ProgramKeepsBlock(blk: L.Block, index: seq<bv8>, p: nat, bufs: seq<seq<Rec>>)
    requires BlockOk(blk, index) && p < PAGE_COUNT
    requires forall q | 0 <= q < PAGE_COUNT :: Blank(blk[q]) <==> p <= q
    requires Fits(bufs) && !AllEmpty(bufs)
    ensures var blk', index' := blk[p := L.Overwrite(blk[p], PageImage(bufs))], index[p := L.PageFlags(bufs, LAYER_MAX)];
            && BlockOk(blk', index')
            && (forall q | 0 <= q < PAGE_COUNT :: Blank(blk'[q]) <==> p + 1 <= q)
            && blk'[p] == Padded(PageImage(bufs))
  {
    OverwriteBlank(PageImage(bufs));
    FlushedPageIsUsed(bufs);
    FlushedIndexOk(bufs);
  }

  lemma FlushedPageHasMagic(page: seq<Byte>)
    requires FlushedPage(page)
    ensures HasMagic(page)
  {
    var bufs :| Fits(bufs) && !AllEmpty(bufs) && page == Padded(PageImage(bufs));
    FlushedPageIsUsed(bufs);
  }

  /** Page 0 without MAGIC means that the whole block is blank. */
  lemma UnusedBlockIsBlank(blk: L.Block, index: seq<bv8>)
    requires BlockOk(blk, index) && L.BlockShape(blk)
    ensures L.UsedBlock(blk) <==> !BlankBlock(blk)
  {
    if !Blank(blk[0]) {
      FlushedPageHasMagic(blk[0]);
    } else {
      BlankPageHasNoRecords(0, PAGE_SIZE, EMPTY_SPAN);
      assert forall q | 0 < q < PAGE_COUNT :: Blank(blk[q]);
    }
  }

  // ----- one flush

  lemma EraseThenProgram(d: L.Disk, b: nat, p: nat, data: seq<Byte>)
    requires L.DiskShape(d) && b < BLOCK_COUNT && p < PAGE_COUNT
    ensures L.ApplyAll(d, [L.Erase(b), L.Program(b, p, data)])
            == d[b := L.BlankBlock()[p := L.Overwrite(L.BlankBlock()[p], data)]]
  {
    ApplyTwo(d, L.Erase(b), L.Program(b, p, data));
    UpdateTwice(d, b, L.BlankBlock(), L.BlankBlock()[p := L.Overwrite(L.BlankBlock()[p], data)]);
  }

  /** An optional erase of block `b` and an optional program of its page `p`. */
  function Calls(b: nat, p: nat, data: seq<Byte>, erase: bool, program: bool): seq<L.Op>
  {
    if erase then (if program then [L.Erase(b), L.Program(b, p, data)] else [L.Erase(b)])
    else if program then [L.Program(b, p, data)] else []
  }

  lemma CallsDisk(d: L.Disk, b: nat, p: nat, data: seq<Byte>, erase: bool, program: bool)
    requires L.DiskShape(d) && b < BLOCK_COUNT && p < PAGE_COUNT
    ensures var blk := if erase then L.BlankBlock() else d[b];
            L.ApplyAll(d, Calls(b, p, data, erase, program))
            == d[b := if program then blk[p := L.Overwrite(blk[p], data)] else blk]
  {
    if erase && program {
      EraseThenProgram(d, b, p, data);
    } else if erase {
      ApplyOne(d, L.Erase(b));
    } else if program {
      ApplyOne(d, L.Program(b, p, data));
    } else {
      NoCalls(d, b);
    }
  }

  /** The calls of a flush whose erase, if one is due, succeeds. */
  lemma ServedOps(s: L.State, drv: L.Driver)
    requires L.WellFormed(s) && !AllEmpty(s.bufs)
    requires s.status[s.block].invalid ==> drv.eraseOk
    ensures L.FlushOps(s, drv)
            == Calls(s.block, s.page, PageImage(s.bufs), s.status[s.block].invalid, drv.programOk)
  {
  }

  /** The flash after a flush whose erase, if one is due, succeeds. */
  lemma FlushDisk(s: L.State, drv: L.Driver)
    requires L.WellFormed(s) && !AllEmpty(s.bufs)
    requires s.status[s.block].invalid ==> drv.eraseOk
    ensures var b, p := s.block, s.page;
            var blk := if s.status[b].invalid then L.BlankBlock() else s.disk[b];
            L.Flush(s, drv).0.disk
            == s.disk[b := if drv.programOk then blk[p := L.Overwrite(blk[p], PageImage(s.bufs))] else blk]
  {
    ServedOps(s, drv);
    L.FlushWellFormed(s, drv);
    CallsDisk(s.disk, s.block, s.page, PageImage(s.bufs), s.status[s.block].invalid, drv.programOk);
  }

  lemma NoCalls(d: L.Disk, b: nat)
    requires L.DiskShape(d) && b < BLOCK_COUNT
    ensures L.ApplyAll(d, []) == d[b := d[b]]
  {
  }

  lemma UpdateTwice(d: L.Disk, b: nat, x: L.Block, y: L.Block)
    requires b < |d|
    ensures d[b := x][b := y] == d[b := y]
  {
  }

  lemma AdvanceKeepsCursor(s: L.State, flags: bv8)
    requires L.WellFormed(s) && !s.status[s.block].invalid
    requires forall q | 0 <= q < PAGE_COUNT :: Blank(s.disk[s.block][q]) <==> s.page + 1 <= q
    ensures L.WellFormed(L.Advance(s, flags)) && CursorOk(L.Advance(s, flags))
  {
  }

  /** Will the driver carry out what the pending flush asks for? */
  predicate DriverServes(s: L.State, drv: L.Driver)
    requires L.WellFormed(s)
  {
    (s.status[s.block].invalid ==> drv.eraseOk) && drv.programOk
  }

  /** Is the block at the cursor due for an erase the driver refuses, with data still on it? */
  predicate EraseRefused(s: L.State, drv: L.Driver)
    requires L.WellFormed(s)
  {
    s.status[s.block].invalid && !drv.eraseOk && !BlankBlock(s.disk[s.block])
  }

  lemma FlushKeepsInv(s: L.State, drv: L.Driver)
    requires Inv(s) && (AllEmpty(s.bufs) || !EraseRefused(s, drv))
    ensures Inv(L.Flush(s, drv).0)
  {
    L.FlushWellFormed(s, drv);
    if !AllEmpty(s.bufs) {
      if s.status[s.block].invalid && !drv.eraseOk {
        assert L.ApplyAll(s.disk, []) == s.disk;
      } else if drv.programOk {
        AdvanceKeepsInv(s, drv);
      } else {
        FlushDisk(s, drv);
        TargetIsBlank(s);
      }
    }
  }

  /** The block at the cursor as the pending program finds it. */
  function TargetBlock(s: L.State): L.Block
    requires L.WellFormed(s)
  {
    if s.status[s.block].invalid then L.BlankBlock() else s.disk[s.block]
  }

  /** A flush with successful driver calls, before the cursor moves. */
  function Programmed(s: L.State): L.State
    requires L.WellFormed(s)
  {
    var blk := TargetBlock(s);
    s.(disk := s.disk[s.block := blk[s.page := L.Overwrite(blk[s.page], PageImage(s.bufs))]],
       status := s.status[s.block := s.status[s.block].(invalid := false)],
       bufs := L.EmptyBufs())
  }

  lemma FlushIsProgramThenAdvance(s: L.State, drv: L.Driver)
    requires L.WellFormed(s) && !AllEmpty(s.bufs) && DriverServes(s, drv)
    ensures L.WellFormed(Programmed(s))
    ensures L.Flush(s, drv) == (L.Advance(Programmed(s), L.PageFlags(s.bufs, LAYER_MAX)), OK)
  {
    FlushDisk(s, drv);
    L.EmptyBufsFit();
  }

  lemma TargetIsBlank(s: L.State)
    requires Inv(s)
    ensures BlockOk(TargetBlock(s), s.status[s.block].pages)
    ensures forall q | 0 <= q < PAGE_COUNT :: Blank(TargetBlock(s)[q]) <==> s.page <= q
  {
    BlankBlockOk(s.status[s.block].pages);
  }

  /** Every block is in order once the page is programmed and its index byte set. */
  lemma ProgrammedBlocks(s: L.State, after: L.State)
    requires Inv(s) && !AllEmpty(s.bufs) && L.WellFormed(after) && after.disk == Programmed(s).disk
    requires forall c | 0 <= c < BLOCK_COUNT ::
               after.status[c].pages
               == if c == s.block then s.status[c].pages[s.page := L.PageFlags(s.bufs, LAYER_MAX)] else s.status[c].pages
    ensures forall b | BLOCK_START_DATA_AREA <= b < BLOCK_COUNT :: BlockOk(after.disk[b], after.status[b].pages)
    ensures forall q | 0 <= q < PAGE_COUNT :: Blank(after.disk[s.block][q]) <==> s.page + 1 <= q
  {
    TargetIsBlank(s);
    ProgramKeepsBlock(TargetBlock(s), s.status[s.block].pages, s.page, s.bufs);
    forall b | BLOCK_START_DATA_AREA <= b < BLOCK_COUNT ensures BlockOk(after.disk[b], after.status[b].pages) {
      assert BlockOk(s.disk[b], s.status[b].pages);
    }
  }

  lemma AdvancedInv(s: L.State, s1: L.State, after: L.State)
    requires Inv(s) && !AllEmpty(s.bufs) && s1 == Programmed(s) && L.WellFormed(s1)
    requires after == L.Advance(s1, L.PageFlags(s.bufs, LAYER_MAX))
    ensures Inv(after)
  {
    AdvanceIndex(s1, L.PageFlags(s.bufs, LAYER_MAX));
    L.AdvanceWellFormed(s1, L.PageFlags(s.bufs, LAYER_MAX));
    ProgrammedBlocks(s, after);
    AdvanceKeepsCursor(s1, L.PageFlags(s.bufs, LAYER_MAX));
  }

  lemma AdvanceKeepsInv(s: L.State, drv: L.Driver)
    requires Inv(s) && !AllEmpty(s.bufs) && DriverServes(s, drv)
    ensures Inv(L.Flush(s, drv).0)
  {
    FlushIsProgramThenAdvance(s, drv);
    AdvancedInv(s, Programmed(s), L.Flush(s, drv).0);
  }

  /** Only the index byte of the page just written changes. */
  lemma AdvanceIndex(s: L.State, flags: bv8)
    requires L.WellFormed(s)
    ensures var s' := L.Advance(s, flags);
            && s'.disk == s.disk
            && forall c | 0 <= c < BLOCK_COUNT ::
                 s'.status[c].pages == if c == s.block then s.status[c].pages[s.page := flags] else s.status[c].pages
  {
  }

  /** A flush keeps the discipline exactly when no due erase is refused over data: the "used" flag
      is cleared before the driver answers, so a refused erase is never retried. */
  lemma FlushKeepsInvIff(s: L.State, drv: L.Driver)
    requires Inv(s)
    ensures Inv(L.Flush(s, drv).0) <==> AllEmpty(s.bufs) || !EraseRefused(s, drv)
  {
    if AllEmpty(s.bufs) || !EraseRefused(s, drv) {
      FlushKeepsInv(s, drv);
    } else {
      RefusedFlushBreaksCursor(s, drv);
    }
  }

  lemma RefusedFlushBreaksCursor(s: L.State, drv: L.Driver)
    requires Inv(s) && !AllEmpty(s.bufs) && EraseRefused(s, drv)
    ensures L.WellFormed(L.Flush(s, drv).0) && !CursorOk(L.Flush(s, drv).0)
  {
    var later := L.Flush(s, drv).0;
    L.FlushWellFormed(s, drv);
    assert L.ApplyAll(s.disk, []) == s.disk;
    var p :| 0 <= p < PAGE_COUNT && !Blank(s.disk[s.block][p]);
    assert !Blank(later.disk[later.block][p]) && later.page == 0;
  }

  /** ... and then the next flush programs page 0 over the data that is still there. */
  lemma RefusedEraseOverwrites(s: L.State, drv: L.Driver, bufs: seq<seq<Rec>>)
    requires Inv(s) && !AllEmpty(s.bufs) && EraseRefused(s, drv)
    requires Fits(bufs) && !AllEmpty(bufs)
    ensures L.Flush(s, drv).1 == ERR
    ensures var later := L.Flush(s, drv).0.(bufs := bufs);
            && L.WellFormed(later)
            && L.FlushOps(later, L.HEALTHY) == [L.Program(s.block, 0, PageImage(bufs))]
            && !Blank(later.disk[s.block][0])
  {
    assert L.ApplyAll(s.disk, []) == s.disk;
    var p :| 0 <= p < PAGE_COUNT && !Blank(s.disk[s.block][p]);
    assert BlockOk(s.disk[s.block], s.status[s.block].pages);
  }

  // ----- mount

  function AnyIndex(): seq<bv8> { Repeat<bv8>(0xFF, PAGE_COUNT) }

  /** The part of the invariant that lives on the flash. */
  ghost predicate DataOk(d: L.Disk)
  {
    L.DiskShape(d) && forall b | BLOCK_START_DATA_AREA <= b < BLOCK_COUNT :: BlockOk(d[b], AnyIndex())
  }

  lemma InvGivesDataOk(s: L.State)
    requires Inv(s)
    ensures DataOk(s.disk)
  {
    forall b | BLOCK_START_DATA_AREA <= b < BLOCK_COUNT ensures BlockOk(s.disk[b], AnyIndex()) {
      assert BlockOk(s.disk[b], s.status[b].pages);
    }
  }

  /** Has the data area a block whose page 0 carries no MAGIC? */
  predicate HasUnused(d: L.Disk)
    requires L.DiskShape(d)
  {
    exists b | BLOCK_START_DATA_AREA <= b < BLOCK_COUNT :: !L.UsedBlock(d[b])
  }

  lemma {:induction false} ScanFinds(d: L.Disk, b: nat, best: nat, bestTime: nat)
    requires L.DiskShape(d) && BLOCK_START_DATA_AREA <= b <= BLOCK_COUNT
    requires BLOCK_START_DATA_AREA <= best < BLOCK_COUNT
    requires b == BLOCK_START_DATA_AREA ==> best == b && bestTime == 0
    requires b > BLOCK_START_DATA_AREA ==> best < b && bestTime == L.HeaderTime(d[best])
    requires forall c | BLOCK_START_DATA_AREA <= c < b :: L.UsedBlock(d[c]) && L.HeaderTime(d[c]) <= bestTime
    requires forall c | BLOCK_START_DATA_AREA <= c < best :: L.HeaderTime(d[c]) < bestTime
    ensures var r := L.ScanFrom(d, b, best, bestTime);
            && BLOCK_START_DATA_AREA <= r < BLOCK_COUNT
            && (HasUnused(d) ==>
                  !L.UsedBlock(d[r]) && forall c | BLOCK_START_DATA_AREA <= c < r :: L.UsedBlock(d[c]))
            && (!HasUnused(d) ==>
                  && (forall c | BLOCK_START_DATA_AREA <= c < BLOCK_COUNT :: L.HeaderTime(d[c]) <= L.HeaderTime(d[r]))
                  && (forall c | BLOCK_START_DATA_AREA <= c < r :: L.HeaderTime(d[c]) < L.HeaderTime(d[r])))
    decreases BLOCK_COUNT - b
  {
    if b < BLOCK_COUNT && L.UsedBlock(d[b]) {
      if L.HeaderTime(d[b]) > bestTime {
        ScanFinds(d, b + 1, b, L.HeaderTime(d[b]));
      } else {
        ScanFinds(d, b + 1, best, bestTime);
      }
    }
  }

  /** Mount recovery: the cursor goes to the least unused block if there is one, else to the first
      block with the newest page-0 time. */
  lemma MountRecovery(d: L.Disk)
    requires L.DiskShape(d)
    ensures var r := L.MountBlock(d);
            && BLOCK_START_DATA_AREA <= r < BLOCK_COUNT
            && (HasUnused(d) ==>
                  !L.UsedBlock(d[r]) && forall c | BLOCK_START_DATA_AREA <= c < r :: L.UsedBlock(d[c]))
            && (!HasUnused(d) ==>
                  && (forall c | BLOCK_START_DATA_AREA <= c < BLOCK_COUNT :: L.HeaderTime(d[c]) <= L.HeaderTime(d[r]))
                  && (forall c | BLOCK_START_DATA_AREA <= c < r :: L.HeaderTime(d[c]) < L.HeaderTime(d[r])))
  {
    ScanFinds(d, BLOCK_START_DATA_AREA, BLOCK_START_DATA_AREA, 0);
  }

  lemma MountGivesInv(d: L.Disk)
    requires DataOk(d)
    ensures Inv(L.Mount(d))
  {
    var s := L.Mount(d);
    assert BlockOk(d[s.block], AnyIndex());
    UnusedBlockIsBlank(d[s.block], AnyIndex());
  }

  lemma BlankDiskOk()
    ensures DataOk(L.BlankDisk())
  {
    BlankBlockOk(AnyIndex());
  }

  // ----- runs

  /** What an event must not do: let a due erase fail over data, or erase the block being filled. */
  predicate Careful(s: L.State, e: Event)
    requires L.WellFormed(s)
  {
    match e
    case Append(layer, _, payload, drv) => L.FlushesNow(s, layer, |payload|) ==> !EraseRefused(s, drv)
    case Flush(drv) => AllEmpty(s.bufs) || !EraseRefused(s, drv)
    case UserErase(b, ok) => ok ==> b < BLOCK_START_DATA_AREA || b != s.block || s.page == 0
    case PowerCut(_) => true
  }

  /** Power lost between two driver calls leaves the flash as some flush would. */
  lemma PowerCutIsPartialFlush(s: L.State, calls: nat)
    requires Inv(s)
    ensures DataOk(L.ApplyAll(s.disk, EventOps(s, PowerCut(calls))))
  {
    var ops, cut := L.FlushOps(s, L.HEALTHY), EventOps(s, PowerCut(calls));
    if cut == [] {
      InvGivesDataOk(s);
    } else if cut == ops {
      FlushKeepsInv(s, L.HEALTHY);
      L.FlushWellFormed(s, L.HEALTHY);
      InvGivesDataOk(L.Flush(s, L.HEALTHY).0);
    } else {
      var drv := L.Driver(true, false);
      assert cut == L.FlushOps(s, drv);
      FlushKeepsInv(s, drv);
      L.FlushWellFormed(s, drv);
      InvGivesDataOk(L.Flush(s, drv).0);
    }
  }

  lemma UserEraseKeepsInvIff(s: L.State, b: nat)
    requires Inv(s) && b < BLOCK_COUNT
    ensures var s' := s.(disk := L.Apply(s.disk, L.Erase(b)));
            L.WellFormed(s') && (Inv(s') <==> b < BLOCK_START_DATA_AREA || b != s.block || s.page == 0)
  {
    BlankBlockOk(s.status[b].pages);
    if b == s.block && s.page > 0 {
      assert Blank(L.BlankBlock()[0]);
    }
  }

  /** Erasing the block being filled hides data: after the next flush its page 0 is blank, so a
      mount takes the block for unused although it holds a page. */
  lemma EraseOfCurrentBlockHidesPages(s: L.State)
    requires Inv(s) && s.page > 0 && !AllEmpty(s.bufs)
    ensures var erased := s.(disk := L.Apply(s.disk, L.Erase(s.block)));
            && L.WellFormed(erased)
            && L.WellFormed(L.Flush(erased, L.HEALTHY).0)
            && var blk := L.Flush(erased, L.HEALTHY).0.disk[s.block];
            !L.UsedBlock(blk) && !Blank(blk[s.page])
  {
    var erased := s.(disk := L.Apply(s.disk, L.Erase(s.block)));
    L.FlushWellFormed(erased, L.HEALTHY);
    FlushDisk(erased, L.HEALTHY);
    OverwriteBlank(PageImage(s.bufs));
    FlushedPageIsUsed(s.bufs);
    BlankPageHasNoRecords(0, PAGE_SIZE, EMPTY_SPAN);
  }

  lemma InvIgnoresBuffers(s: L.State, bufs: seq<seq<Rec>>)
    requires L.WellFormed(s) && Fits(bufs)
    ensures Inv(s.(bufs := bufs)) <==> Inv(s)
  {
  }

  lemma AutoFlushHasData(s: L.State, layer: nat, length: nat)
    requires L.WellFormed(s) && L.FlushesNow(s, layer, length)
    ensures !AllEmpty(s.bufs)
  {
    if AllEmpty(s.bufs) {
      L.TotalOfEmpty(s.bufs, LAYER_MAX);
    }
  }

  lemma AppendKeepsInvIff(cap: nat, s: L.State, e: Event)
    requires Inv(s) && e.Append?
    ensures Inv(Step(cap, s, e)) <==> Careful(s, e)
  {
    var s1 := L.BeforeBuffering(s, e.layer, |e.payload|, e.drv);
    if L.Accepts(e.layer, |e.payload|) {
      L.RoomForRecord(s, e.layer, |e.payload|, e.drv);
      InvIgnoresBuffers(s1, Step(cap, s, e).bufs);
    }
    if L.FlushesNow(s, e.layer, |e.payload|) {
      FlushKeepsInvIff(s, e.drv);
      AutoFlushHasData(s, e.layer, |e.payload|);
    }
  }

  /** Every event keeps the invariant exactly when it is careful. */
  lemma StepKeepsInvIff(cap: nat, s: L.State, e: Event)
    requires Inv(s) && EventOk(e)
    ensures Inv(Step(cap, s, e)) <==> Careful(s, e)
  {
    match e
    case Append(_, _, _, _) => AppendKeepsInvIff(cap, s, e);
    case Flush(drv) => FlushKeepsInvIff(s, drv);
    case UserErase(b, ok) =>
      if ok {
        ApplyOne(s.disk, L.Erase(b));
        UserEraseKeepsInvIff(s, b);
      }
    case PowerCut(calls) =>
      PowerCutIsPartialFlush(s, calls);
      MountGivesInv(L.ApplyAll(s.disk, EventOps(s, e)));
  }

  predicate CarefulRun(cap: nat, s: L.State, es: seq<Event>)
    requires L.WellFormed(s) && EventsOk(es)
  {
    es == [] || (CarefulRun(cap, s, es[..|es| - 1]) && Careful(Run(cap, s, es[..|es| - 1]), es[|es| - 1]))
  }

  /** Every program of the trace hits a page that is blank at that moment. */
  predicate BlankTargets(d: L.Disk, ops: seq<L.Op>)
    requires L.DiskShape(d) && L.OpsOk(ops)
  {
    ops == []
    || (&& BlankTargets(d, ops[..|ops| - 1])
        && var op := ops[|ops| - 1];
        op.Program? ==> Blank(L.ApplyAll(d, ops[..|ops| - 1])[op.block][op.page]))
  }

  lemma BlankTargetsMore(d: L.Disk, ops: seq<L.Op>, op: L.Op)
    requires L.DiskShape(d) && L.OpsOk(ops) && L.OpOk(op) && BlankTargets(d, ops)
    requires op.Program? ==> Blank(L.ApplyAll(d, ops)[op.block][op.page])
    ensures L.OpsOk(ops + [op]) && BlankTargets(d, ops + [op])
  {
    assert (ops + [op])[..|ops|] == ops;
  }

  lemma LastOfConcat(a: seq<L.Op>, b: seq<L.Op>)
    requires b != []
    ensures a + b == a + b[..|b| - 1] + [b[|b| - 1]]
  {
  }

  lemma {:induction false} BlankTargetsConcat(d: L.Disk, a: seq<L.Op>, b: seq<L.Op>)
    requires L.DiskShape(d) && L.OpsOk(a) && L.OpsOk(b)
    requires BlankTargets(d, a) && BlankTargets(L.ApplyAll(d, a), b)
    ensures BlankTargets(d, a + b)
    decreases |b|
  {
    if b == [] {
      assert a + b == a;
    } else {
      var b0 := b[..|b| - 1];
      BlankTargetsConcat(d, a, b0);
      ApplyConcat(d, a, b0);
      BlankTargetsMore(d, a + b0, b[|b| - 1]);
      LastOfConcat(a, b);
    }
  }

  lemma {:induction false} BlankTargetsPrefix(d: L.Disk, ops: seq<L.Op>, n: nat)
    requires L.DiskShape(d) && L.OpsOk(ops) && n <= |ops| && BlankTargets(d, ops)
    ensures BlankTargets(d, ops[..n])
    decreases |ops|
  {
    if n == |ops| {
      assert ops[..n] == ops;
    } else {
      BlankTargetsPrefix(d, ops[..|ops| - 1], n);
      assert ops[..|ops| - 1][..n] == ops[..n];
    }
  }

  lemma BlankTargetsOne(d: L.Disk, op: L.Op)
    requires L.DiskShape(d) && L.OpOk(op) && (op.Program? ==> Blank(d[op.block][op.page]))
    ensures BlankTargets(d, [op])
  {
    assert [op][..0] == [];
    assert L.ApplyAll(d, []) == d;
  }

  lemma FlushHitsBlank(s: L.State, drv: L.Driver)
    requires Inv(s)
    ensures BlankTargets(s.disk, L.FlushOps(s, drv))
  {
    var ops := L.FlushOps(s, drv);
    TargetIsBlank(s);
    if |ops| > 0 {
      BlankTargetsOne(s.disk, ops[0]);
      if |ops| == 1 {
        assert ops == [ops[0]];
      } else {
        ApplyOne(s.disk, ops[0]);
        BlankTargetsOne(L.Apply(s.disk, ops[0]), ops[1]);
        BlankTargetsConcat(s.disk, [ops[0]], [ops[1]]);
        assert ops == [ops[0]] + [ops[1]];
      }
    }
  }

  lemma NoTargets(d: L.Disk)
    requires L.DiskShape(d)
    ensures BlankTargets(d, [])
  {
  }

  lemma CutHitsBlank(s: L.State, calls: nat)
    requires Inv(s)
    ensures BlankTargets(s.disk, EventOps(s, PowerCut(calls)))
  {
    FlushHitsBlank(s, L.HEALTHY);
    CutIsPrefix(s, calls);
    BlankTargetsPrefix(s.disk, L.FlushOps(s, L.HEALTHY), Min(calls, |L.FlushOps(s, L.HEALTHY)|));
  }

  lemma CutIsPrefix(s: L.State, calls: nat)
    requires L.WellFormed(s)
    ensures var ops := L.FlushOps(s, L.HEALTHY); EventOps(s, PowerCut(calls)) == ops[..Min(calls, |ops|)]
  {
  }

  lemma EventHitsBlank(s: L.State, e: Event)
    requires Inv(s) && EventOk(e)
    ensures BlankTargets(s.disk, EventOps(s, e))
  {
    NoTargets(s.disk);
    match e
    case Append(_, _, _, drv) => FlushHitsBlank(s, drv);
    case Flush(drv) => FlushHitsBlank(s, drv);
    case UserErase(b, _) => BlankTargetsOne(s.disk, L.Erase(b));
    case PowerCut(calls) => CutHitsBlank(s, calls);
  }

  lemma {:induction false} CarefulRunKeepsInv(cap: nat, s: L.State, es: seq<Event>)
    requires Inv(s) && EventsOk(es) && CarefulRun(cap, s, es)
    ensures Inv(Run(cap, s, es)) && BlankTargets(s.disk, RunOps(cap, s, es))
  {
    if es != [] {
      var before, e := es[..|es| - 1], es[|es| - 1];
      var s1 := Run(cap, s, before);
      CarefulRunKeepsInv(cap, s, before);
      StepKeepsInvIff(cap, s1, e);
      EventHitsBlank(s1, e);
      DiskOfRun(cap, s, before);
      BlankTargetsConcat(s.disk, RunOps(cap, s, before), EventOps(s1, e));
    }
  }

  /** Erase before program: from a blank chip, under any mix of appends, flushes, program failures,
      erases of other blocks, power cuts between driver calls and remounts, every page program hits
      a blank page, and a block whose page 0 carries no MAGIC is wholly blank. */
  lemma EraseBeforeProgram(cap: nat, es: seq<Event>)
    requires EventsOk(es)
    requires CarefulRun(cap, L.Mount(L.BlankDisk()), es)
    ensures var s0 := L.Mount(L.BlankDisk());
            var s := Run(cap, s0, es);
            && Inv(s)
            && BlankTargets(L.BlankDisk(), RunOps(cap, s0, es))
            && forall b | BLOCK_START_DATA_AREA <= b < BLOCK_COUNT :: L.UsedBlock(s.disk[b]) <==> !BlankBlock(s.disk[b])
  {
    BlankDiskOk();
    MountGivesInv(L.BlankDisk());
    CarefulRunKeepsInv(cap, L.Mount(L.BlankDisk()), es);
    var s := Run(cap, L.Mount(L.BlankDisk()), es);
    forall b | BLOCK_START_DATA_AREA <= b < BLOCK_COUNT
      ensures L.UsedBlock(s.disk[b]) <==> !BlankBlock(s.disk[b])
    {
      UnusedBlockIsBlank(s.disk[b], s.status[b].pages);
    }
  }
}

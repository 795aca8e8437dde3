/** mxfs_timerange: which pages the in-RAM index, guarded by the on-flash MAGIC, reports for a layer. */
module IndexQuery {
  import opened Layout
  import opened PageFormat
  import opened PageEncoder
  import opened Runs
  import opened EraseDiscipline
  import L = LogFs

  datatype Slot = Slot(block: nat, page: nat)

  // Slots in scan order: block by block, page by page.
  const SLOT_COUNT: int := (BLOCK_COUNT - BLOCK_START_DATA_AREA) * PAGE_COUNT

  function SlotAt(k: nat): Slot
  {
    Slot(BLOCK_START_DATA_AREA + k / PAGE_COUNT, k % PAGE_COUNT)
  }

  predicate Before(x: Slot, y: Slot)
  {
    x.block < y.block || (x.block == y.block && x.page < y.page)
  }

  predicate InDataArea(x: Slot)
  {
    BLOCK_START_DATA_AREA <= x.block < BLOCK_COUNT && x.page < PAGE_COUNT
  }

  /** The test of mxfs_timerange for one page. */
  predicate Listed(s: L.State, layer: nat, x: Slot)
    requires L.WellFormed(s) && layer < LAYER_MAX && InDataArea(x)
  {
    HasMagic(s.disk[x.block][x.page]) && s.status[x.block].pages[x.page] & L.Flag(layer) != 0
  }

  /** The listed slots among the first `k`. */
  function Listing(s: L.State, layer: nat, k: nat): seq<Slot>
    requires L.WellFormed(s) && layer < LAYER_MAX && k <= SLOT_COUNT
  {
    if k == 0 then []
    else Listing(s, layer, k - 1) + if Listed(s, layer, SlotAt(k - 1)) then [SlotAt(k - 1)] else []
  }

  lemma SlotOrder(j: nat, k: nat)
    requires j < k
    ensures Before(SlotAt(j), SlotAt(k))
  {
  }

  lemma {:induction false} ListingMembers(s: L.State, layer: nat, k: nat, x: Slot)
    requires L.WellFormed(s) && layer < LAYER_MAX && k <= SLOT_COUNT && InDataArea(x)
    ensures x in Listing(s, layer, k)
            <==> PAGE_COUNT * (x.block - BLOCK_START_DATA_AREA) + x.page < k && Listed(s, layer, x)
  {
    if k > 0 {
      ListingMembers(s, layer, k - 1, x);
      assert SlotAt(k - 1) == x <==> PAGE_COUNT * (x.block - BLOCK_START_DATA_AREA) + x.page == k - 1;
    }
  }

  lemma {:induction false} ListingInArea(s: L.State, layer: nat, k: nat, i: nat)
    requires L.WellFormed(s) && layer < LAYER_MAX && k <= SLOT_COUNT && i < |Listing(s, layer, k)|
    ensures InDataArea(Listing(s, layer, k)[i])
    ensures k < SLOT_COUNT ==> Before(Listing(s, layer, k)[i], SlotAt(k))
  {
    if i < |Listing(s, layer, k - 1)| {
      ListingInArea(s, layer, k - 1, i);
    }
    if k < SLOT_COUNT {
      SlotOrder(k - 1, k);
    }
  }

  lemma {:induction false} ListingSorted(s: L.State, layer: nat, k: nat, i: nat, j: nat)
    requires L.WellFormed(s) && layer < LAYER_MAX && k <= SLOT_COUNT && i < j < |Listing(s, layer, k)|
    ensures Before(Listing(s, layer, k)[i], Listing(s, layer, k)[j])
  {
    if j < |Listing(s, layer, k - 1)| {
      ListingSorted(s, layer, k - 1, i, j);
    } else {
      ListingInArea(s, layer, k - 1, i);
    }
  }

  /** How a listing decision relates to what mxfs_read returns from the page. */
  predicate DecisionAgrees(page: seq<Byte>, index: bv8, layer: nat, listed: bool)
  {
    && (LayerBytes(page, layer) != [] ==> listed)
    && (index != 0xFF ==> (listed <==> LayerBytes(page, layer) != []))
    && (index == 0xFF ==> (listed <==> !Blank(page)))
  }

  /** What the two tests say about a page in a block that is in order. */
  lemma TestsAgree(page: seq<Byte>, index: bv8, layer: nat)
    requires (Blank(page) || FlushedPage(page)) && IndexOk(page, index) && layer < LAYER_MAX
    ensures DecisionAgrees(page, index, layer, HasMagic(page) && index & L.Flag(layer) != 0)
  {
    WildcardHasAllFlags(layer);
    if Blank(page) {
      BlankPageHasNoRecords(layer, PAGE_SIZE, EMPTY_SPAN);
    } else {
      FlushedPageHasMagic(page);
    }
  }

  /** Index agreement for one page: a page mxfs_read can read the layer from is always listed; with a
      byte written since the mount the listing is exact, and with the mount-time wildcard a listed
      page is at least a programmed one. Stale bytes of erased pages list nothing. */
  lemma ListedAgrees(s: L.State, layer: nat, x: Slot)
    requires Inv(s) && layer < LAYER_MAX && InDataArea(x)
    ensures DecisionAgrees(s.disk[x.block][x.page], s.status[x.block].pages[x.page], layer, Listed(s, layer, x))
  {
    PageInOrder(s, x);
    TestsAgree(s.disk[x.block][x.page], s.status[x.block].pages[x.page], layer);
  }

  lemma PageInOrder(s: L.State, x: Slot)
    requires Inv(s) && InDataArea(x)
    ensures Blank(s.disk[x.block][x.page]) || FlushedPage(s.disk[x.block][x.page])
    ensures IndexOk(s.disk[x.block][x.page], s.status[x.block].pages[x.page])
  {
    assert BlockOk(s.disk[x.block], s.status[x.block].pages);
  }

  lemma WildcardHasAllFlags(layer: nat)
    requires layer < LAYER_MAX
    ensures 0xFF & L.Flag(layer) != 0
  {
  }

  /** The whole answer of mxfs_timerange in any reachable state: ascending, nothing missed. */
  lemma QueryAgrees(s: L.State, layer: nat)
    requires Inv(s) && layer < LAYER_MAX
    ensures var r := Listing(s, layer, SLOT_COUNT);
            && (forall i, j | 0 <= i < j < |r| :: Before(r[i], r[j]))
            && (forall i | 0 <= i < |r| :: InDataArea(r[i]))
            && (forall x | InDataArea(x) && LayerBytes(s.disk[x.block][x.page], layer) != [] :: x in r)
            && (forall x | InDataArea(x) && s.status[x.block].pages[x.page] != 0xFF ::
                  x in r <==> LayerBytes(s.disk[x.block][x.page], layer) != [])
  {
    var r := Listing(s, layer, SLOT_COUNT);
    forall i, j | 0 <= i < j < |r| ensures Before(r[i], r[j]) {
      ListingSorted(s, layer, SLOT_COUNT, i, j);
    }
    forall i | 0 <= i < |r| ensures InDataArea(r[i]) {
      ListingInArea(s, layer, SLOT_COUNT, i);
    }
    forall x | InDataArea(x)
      ensures LayerBytes(s.disk[x.block][x.page], layer) != [] ==> x in r
      ensures s.status[x.block].pages[x.page] != 0xFF ==> (x in r <==> LayerBytes(s.disk[x.block][x.page], layer) != [])
    {
      ListingMembers(s, layer, SLOT_COUNT, x);
      ListedAgrees(s, layer, x);
    }
  }

  /** A flush changes one index byte, or none. */
  lemma FlushIndexBytes(s: L.State, drv: L.Driver)
    requires L.WellFormed(s)
    ensures L.WellFormed(L.Flush(s, drv).0)
    ensures forall c | 0 <= c < BLOCK_COUNT ::
              L.Flush(s, drv).0.status[c].pages
              == if !AllEmpty(s.bufs) && DriverServes(s, drv) && c == s.block
                 then s.status[c].pages[s.page := L.PageFlags(s.bufs, LAYER_MAX)]
                 else s.status[c].pages
  {
    L.FlushWellFormed(s, drv);
    if !AllEmpty(s.bufs) && DriverServes(s, drv) {
      FlushIsProgramThenAdvance(s, drv);
      AdvanceIndex(Programmed(s), L.PageFlags(s.bufs, LAYER_MAX));
    }
  }

  /** The byte a successful flush leaves for its page is never the wildcard ... */
  lemma FlushWritesIndex(s: L.State, drv: L.Driver)
    requires L.WellFormed(s) && !AllEmpty(s.bufs) && DriverServes(s, drv)
    ensures L.WellFormed(L.Flush(s, drv).0)
    ensures L.Flush(s, drv).0.status[s.block].pages[s.page] != 0xFF
  {
    FlushIndexBytes(s, drv);
    FlushedIndexOk(s.bufs);
  }

  lemma FlushKeepsWritten(s: L.State, drv: L.Driver, x: Slot)
    requires L.WellFormed(s) && InDataArea(x) && s.status[x.block].pages[x.page] != 0xFF
    ensures L.WellFormed(L.Flush(s, drv).0)
    ensures L.Flush(s, drv).0.status[x.block].pages[x.page] != 0xFF
  {
    FlushIndexBytes(s, drv);
    FlushedIndexOk(s.bufs);
  }

  /** ... and only a remount puts the wildcard back. */
  lemma StepKeepsWritten(cap: nat, s: L.State, e: Event, x: Slot)
    requires L.WellFormed(s) && EventOk(e) && !e.PowerCut? && InDataArea(x)
    requires s.status[x.block].pages[x.page] != 0xFF
    ensures Step(cap, s, e).status[x.block].pages[x.page] != 0xFF
  {
    match e
    case Append(_, _, _, drv) => FlushKeepsWritten(s, drv, x);
    case Flush(drv) => FlushKeepsWritten(s, drv, x);
    case UserErase(_, _) =>
  }

  /** Every slot the calls programmed has lost its wildcard. */
  predicate ProgramsIndexed(s: L.State, ops: seq<L.Op>)
    requires L.WellFormed(s)
  {
    forall i | 0 <= i < |ops| && ops[i].Program? :: Indexed(s, ops[i].block, ops[i].page)
  }

  predicate Indexed(s: L.State, b: nat, p: nat)
    requires L.WellFormed(s)
  {
    InDataArea(Slot(b, p)) && s.status[b].pages[p] != 0xFF
  }

  lemma FlushProgramsCursor(s: L.State, drv: L.Driver, i: nat)
    requires L.WellFormed(s) && i < |L.FlushOps(s, drv)| && L.FlushOps(s, drv)[i].Program?
    ensures !AllEmpty(s.bufs) && DriverServes(s, drv)
    ensures L.FlushOps(s, drv)[i].block == s.block && L.FlushOps(s, drv)[i].page == s.page
  {
  }

  lemma FlushIndexes(s: L.State, drv: L.Driver)
    requires L.WellFormed(s)
    ensures L.WellFormed(L.Flush(s, drv).0) && ProgramsIndexed(L.Flush(s, drv).0, L.FlushOps(s, drv))
  {
    L.FlushWellFormed(s, drv);
    var s', ops := L.Flush(s, drv).0, L.FlushOps(s, drv);
    forall i | 0 <= i < |ops| && ops[i].Program? ensures Indexed(s', ops[i].block, ops[i].page) {
      FlushProgramsCursor(s, drv, i);
      FlushWritesIndex(s, drv);
    }
  }

  lemma StepIndexes(cap: nat, s: L.State, e: Event)
    requires L.WellFormed(s) && EventOk(e) && !e.PowerCut?
    ensures ProgramsIndexed(Step(cap, s, e), EventOps(s, e))
  {
    match e
    case Append(_, _, _, drv) => FlushIndexes(s, drv);
    case Flush(drv) => FlushIndexes(s, drv);
    case UserErase(_, _) =>
  }

  predicate NoPowerCut(es: seq<Event>)
  {
    forall i | 0 <= i < |es| :: !es[i].PowerCut?
  }

  lemma {:induction false} RunIndexes(cap: nat, s: L.State, es: seq<Event>)
    requires L.WellFormed(s) && EventsOk(es) && NoPowerCut(es)
    ensures ProgramsIndexed(Run(cap, s, es), RunOps(cap, s, es))
  {
    if es != [] {
      var before, e := es[..|es| - 1], es[|es| - 1];
      var s1, ops := Run(cap, s, before), RunOps(cap, s, before);
      RunIndexes(cap, s, before);
      StepIndexes(cap, s1, e);
      forall i | 0 <= i < |ops| && ops[i].Program? ensures Indexed(Step(cap, s1, e), ops[i].block, ops[i].page) {
        assert Indexed(s1, ops[i].block, ops[i].page);
        StepKeepsWritten(cap, s1, e, Slot(ops[i].block, ops[i].page));
      }
    }
  }

  /** Index agreement over runs: after any careful run since the mount of a chip in order, whatever
      the driver answered and whatever was erased, each page programmed in the run is listed for a
      layer iff mxfs_read returns something for it. */
  lemma RunIndexExact(cap: nat, d: L.Disk, es: seq<Event>, layer: nat)
    requires DataOk(d) && EventsOk(es) && NoPowerCut(es) && CarefulRun(cap, L.Mount(d), es) && layer < LAYER_MAX
    ensures var s, ops := Run(cap, L.Mount(d), es), RunOps(cap, L.Mount(d), es);
            forall i | 0 <= i < |ops| && ops[i].Program? ::
              && InDataArea(Slot(ops[i].block, ops[i].page))
              && (Slot(ops[i].block, ops[i].page) in Listing(s, layer, SLOT_COUNT)
                  <==> LayerBytes(s.disk[ops[i].block][ops[i].page], layer) != [])
  {
    var s, ops := Run(cap, L.Mount(d), es), RunOps(cap, L.Mount(d), es);
    MountGivesInv(d);
    CarefulRunKeepsInv(cap, L.Mount(d), es);
    RunIndexes(cap, L.Mount(d), es);
    forall i | 0 <= i < |ops| && ops[i].Program?
      ensures InDataArea(Slot(ops[i].block, ops[i].page))
      ensures Slot(ops[i].block, ops[i].page) in Listing(s, layer, SLOT_COUNT)
              <==> LayerBytes(s.disk[ops[i].block][ops[i].page], layer) != []
    {
      var x := Slot(ops[i].block, ops[i].page);
      assert Indexed(s, x.block, x.page);
      ListingMembers(s, layer, SLOT_COUNT, x);
      ListedAgrees(s, layer, x);
    }
  }
}

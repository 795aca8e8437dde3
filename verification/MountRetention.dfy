/** What a remount keeps: with an unused block in the data area nothing that was programmed changes
    until the cursor leaves the chosen block; without one the next flush erases the newest block. */
module MountRetention {
  import opened Layout
  import opened CompressHeader
  import opened PageEncoder
  import opened Runs
  import opened EraseDiscipline
  import opened RingLog
  import L = LogFs

  /** Every programmed data page of `before` is unchanged in `after`. */
  predicate KeepsPages(before: L.Disk, after: L.Disk)
    requires L.DiskShape(before) && L.DiskShape(after)
  {
    forall b, p | BLOCK_START_DATA_AREA <= b < BLOCK_COUNT && 0 <= p < PAGE_COUNT && !Blank(before[b][p]) ::
      after[b][p] == before[b][p]
  }

  /** Retention with an unused block: for the up to 64 flushes that fill it, every page programmed
      before the mount stays as it was. */
  lemma MountKeepsPages(cap: nat, d: L.Disk, es: seq<Event>)
    requires DataOk(d) && HasUnused(d)
    requires EventsOk(es) && Quiet(es) && |Programs(RunOps(cap, L.Mount(d), es))| <= PAGE_COUNT
    ensures KeepsPages(d, Run(cap, L.Mount(d), es).disk)
  {
    ChosenBlockUsedIff(d);
    var now := Run(cap, L.Mount(d), es).disk;
    forall b, p | BLOCK_START_DATA_AREA <= b < BLOCK_COUNT && 0 <= p < PAGE_COUNT && !Blank(d[b][p])
      ensures now[b][p] == d[b][p]
    {
      LaneZeroIff(L.Mount(d).block, b);
      UnreachedUntouched(cap, d, es, b);
    }
  }

  /** Does some call of the trace erase a block that holds data? */
  predicate ErasesData(d: L.Disk, ops: seq<L.Op>)
    requires L.DiskShape(d) && L.OpsOk(ops)
  {
    exists i | 0 <= i < |ops| :: ops[i].Erase? && !BlankBlock(d[ops[i].block])
  }

  lemma ChosenBlockUsedIff(d: L.Disk)
    requires DataOk(d)
    ensures L.Mount(d).status[L.MountBlock(d)].invalid <==> !HasUnused(d)
    ensures BlankBlock(d[L.MountBlock(d)]) <==> HasUnused(d)
  {
    var r := L.MountBlock(d);
    MountRecovery(d);
    assert BlockOk(d[r], AnyIndex());
    UnusedBlockIsBlank(d[r], AnyIndex());
  }

  lemma MarkedFlush(s: L.State)
    requires L.WellFormed(s) && !AllEmpty(s.bufs) && s.status[s.block].invalid && s.page == 0
    ensures L.FlushOps(s, L.HEALTHY)[0] == L.Erase(s.block)
    ensures forall p | 1 <= p < PAGE_COUNT :: Blank(L.Flush(s, L.HEALTHY).0.disk[s.block][p])
  {
    FlushDisk(s, L.HEALTHY);
  }

  /** The first flush of a session destroys data exactly when the mount found no unused block; then
      it erases the block with the newest page-0 time and leaves only its own page there. */
  lemma FullChipLosesNewest(d: L.Disk, bufs: seq<seq<Rec>>)
    requires DataOk(d) && Fits(bufs) && !AllEmpty(bufs)
    ensures var s := L.Mount(d).(bufs := bufs);
            && L.WellFormed(s)
            && (ErasesData(d, L.FlushOps(s, L.HEALTHY)) <==> !HasUnused(d))
            && (!HasUnused(d) ==>
                  && L.FlushOps(s, L.HEALTHY)[0] == L.Erase(L.MountBlock(d))
                  && forall p | 1 <= p < PAGE_COUNT :: Blank(L.Flush(s, L.HEALTHY).0.disk[L.MountBlock(d)][p]))
  {
    var s := L.Mount(d).(bufs := bufs);
    ChosenBlockUsedIff(d);
    if HasUnused(d) {
      assert forall i | 0 <= i < |L.FlushOps(s, L.HEALTHY)| :: L.FlushOps(s, L.HEALTHY)[i].Program?;
    } else {
      MarkedFlush(s);
    }
  }

  // ----- the block begun last

  /** The seconds in the header of the page that begins row `q` of a log. */
  function RowSeconds(log: seq<L.Op>, q: nat): U32
    requires PAGE_COUNT * q < |log|
    requires log[PAGE_COUNT * q].Program? && |log[PAGE_COUNT * q].data| <= PAGE_SIZE
  {
    WordAt(Padded(log[PAGE_COUNT * q].data), 4)
  }

  /** They grow from row to row. */
  predicate RowsOrdered(r: nat, log: seq<L.Op>)
    requires LogOk(r, log)
  {
    forall q | 0 < q < |log| && PAGE_COUNT * q < |log| :: RowSeconds(log, q - 1) < RowSeconds(log, q)
  }

  lemma {:induction false} RowsOrderedFar(r: nat, log: seq<L.Op>, p: nat, q: nat)
    requires LogOk(r, log) && RowsOrdered(r, log) && p <= q && PAGE_COUNT * q < |log|
    ensures PAGE_COUNT * p < |log|
    ensures p == q || RowSeconds(log, p) < RowSeconds(log, q)
    decreases q - p
  {
    if p < q {
      RowsOrderedFar(r, log, p, q - 1);
    }
  }

  /** Of all lanes the one begun last has the latest row. */
  lemma LastRowIff(n: nat, j: nat)
    requires n > 0 && j < DATA_BLOCKS && PAGE_COUNT * j < n
    ensures 0 <= OwnerRow(n, j) <= (n - 1) / PAGE_COUNT && PAGE_COUNT * OwnerRow(n, j) < n
    ensures OwnerRow(n, j) == (n - 1) / PAGE_COUNT <==> j == LaneOf(n - 1)
  {
    OwnedIff(n, j);
    ResidueIff((n - 1) / PAGE_COUNT, j);
  }

  /** The page-0 time of a block the session reached is that of the row it was begun with last. */
  lemma ReachedTime(d: L.Disk, now: L.Disk, log: seq<L.Op>, b: nat)
    requires L.DiskShape(d) && L.DiskShape(now) && LogOk(L.MountBlock(d), log) && Window(d, now, log)
    requires InData(b) && Reached(L.MountBlock(d), |log|, b)
    ensures var row := OwnerRow(|log|, Lane(L.MountBlock(d), b));
            0 <= row && PAGE_COUNT * row < |log| && L.HeaderTime(now[b]) == RowSeconds(log, row)
  {
    LastRowIff(|log|, Lane(L.MountBlock(d), b));
    assert now[b][0] == Expected(d, L.MountBlock(d), log, b, 0);
  }

  /** The blocks the session has not reached are older than its first page. */
  predicate UnreachedOlder(d: L.Disk, log: seq<L.Op>)
    requires L.DiskShape(d) && LogOk(L.MountBlock(d), log) && log != []
  {
    forall b | BLOCK_START_DATA_AREA <= b < BLOCK_COUNT && !Reached(L.MountBlock(d), |log|, b) ::
      L.HeaderTime(d[b]) < RowSeconds(log, 0)
  }

  lemma UnreachedTime(d: L.Disk, now: L.Disk, log: seq<L.Op>, b: nat)
    requires L.DiskShape(d) && L.DiskShape(now) && LogOk(L.MountBlock(d), log) && Window(d, now, log)
    requires InData(b) && !Reached(L.MountBlock(d), |log|, b)
    ensures L.HeaderTime(now[b]) == L.HeaderTime(d[b])
  {
    assert now[b][0] == Expected(d, L.MountBlock(d), log, b, 0);
  }

  /** The block begun last carries the time of the last row. */
  lemma NewestTime(d: L.Disk, now: L.Disk, log: seq<L.Op>)
    requires L.DiskShape(d) && L.DiskShape(now) && LogOk(L.MountBlock(d), log) && Window(d, now, log) && log != []
    ensures var newest, row := BlockAt(L.MountBlock(d), |log| - 1), (|log| - 1) / PAGE_COUNT;
            InData(newest) && PAGE_COUNT * row < |log| && L.HeaderTime(now[newest]) == RowSeconds(log, row)
  {
    var r, n := L.MountBlock(d), |log|;
    var newest := BlockAt(r, n - 1);
    LaneOfBlock(r, n - 1, newest);
    ReachedStep(r, n - 1, newest);
    ReachedTime(d, now, log, newest);
    LastRowIff(n, LaneOf(n - 1));
  }

  lemma EarlierRow(r: nat, n: nat, b: nat)
    requires InData(r) && InData(b) && n > 0 && Reached(r, n, b) && b != BlockAt(r, n - 1)
    ensures 0 <= OwnerRow(n, Lane(r, b)) < (n - 1) / PAGE_COUNT
  {
    LaneOfBlock(r, n - 1, b);
    LaneZeroIff(r, b);
    LastRowIff(n, Lane(r, b));
  }

  lemma ReachedIsOlder(d: L.Disk, now: L.Disk, log: seq<L.Op>, b: nat)
    requires L.DiskShape(d) && L.DiskShape(now) && LogOk(L.MountBlock(d), log) && Window(d, now, log) && log != []
    requires RowsOrdered(L.MountBlock(d), log) && InData(b) && Reached(L.MountBlock(d), |log|, b)
    requires b != BlockAt(L.MountBlock(d), |log| - 1) && PAGE_COUNT * ((|log| - 1) / PAGE_COUNT) < |log|
    ensures L.HeaderTime(now[b]) < RowSeconds(log, (|log| - 1) / PAGE_COUNT)
  {
    var r := L.MountBlock(d);
    ReachedTime(d, now, log, b);
    EarlierRow(r, |log|, b);
    RowsOrderedFar(r, log, OwnerRow(|log|, Lane(r, b)), (|log| - 1) / PAGE_COUNT);
  }

  /** Every other block has an older page 0 than the block begun last. */
  lemma OthersAreOlder(d: L.Disk, now: L.Disk, log: seq<L.Op>, b: nat)
    requires L.DiskShape(d) && L.DiskShape(now) && LogOk(L.MountBlock(d), log) && Window(d, now, log)
    requires log != [] && RowsOrdered(L.MountBlock(d), log) && UnreachedOlder(d, log)
    requires InData(b) && b != BlockAt(L.MountBlock(d), |log| - 1)
    ensures InData(BlockAt(L.MountBlock(d), |log| - 1))
    ensures L.HeaderTime(now[b]) < L.HeaderTime(now[BlockAt(L.MountBlock(d), |log| - 1)])
  {
    NewestTime(d, now, log);
    if Reached(L.MountBlock(d), |log|, b) {
      ReachedIsOlder(d, now, log, b);
    } else {
      UnreachedTime(d, now, log, b);
      RowsOrderedFar(L.MountBlock(d), log, 0, (|log| - 1) / PAGE_COUNT);
    }
  }

  /** A session that leaves no block unused, whose page-0 seconds grow from row to row and which is younger
      than what it has not reached: the next mount goes back to the block begun last ... */
  lemma MountFindsLastBegun(cap: nat, d: L.Disk, es: seq<Event>)
    requires DataOk(d) && Quiet(es) && EventsOk(es) && LogOk(L.MountBlock(d), Programs(RunOps(cap, L.Mount(d), es)))
    requires Programs(RunOps(cap, L.Mount(d), es)) != [] && !HasUnused(Run(cap, L.Mount(d), es).disk)
    requires RowsOrdered(L.MountBlock(d), Programs(RunOps(cap, L.Mount(d), es)))
    requires UnreachedOlder(d, Programs(RunOps(cap, L.Mount(d), es)))
    ensures L.MountBlock(Run(cap, L.Mount(d), es).disk)
            == BlockAt(L.MountBlock(d), |Programs(RunOps(cap, L.Mount(d), es))| - 1)
  {
    var now, log := Run(cap, L.Mount(d), es).disk, Programs(RunOps(cap, L.Mount(d), es));
    RingRun(cap, d, es);
    MountRecovery(now);
    LaneOfBlock(L.MountBlock(d), |log| - 1, L.MountBlock(d));
    if L.MountBlock(now) != BlockAt(L.MountBlock(d), |log| - 1) {
      OthersAreOlder(d, now, log, L.MountBlock(now));
    }
  }

  /** ... and its first flush erases that block. */
  lemma RemountErasesLastBegun(cap: nat, d: L.Disk, es: seq<Event>, bufs: seq<seq<Rec>>)
    requires DataOk(d) && Quiet(es) && EventsOk(es) && LogOk(L.MountBlock(d), Programs(RunOps(cap, L.Mount(d), es)))
    requires Programs(RunOps(cap, L.Mount(d), es)) != [] && !HasUnused(Run(cap, L.Mount(d), es).disk)
    requires RowsOrdered(L.MountBlock(d), Programs(RunOps(cap, L.Mount(d), es)))
    requires UnreachedOlder(d, Programs(RunOps(cap, L.Mount(d), es)))
    requires Fits(bufs) && !AllEmpty(bufs)
    ensures var again := L.Mount(Run(cap, L.Mount(d), es).disk).(bufs := bufs);
            && L.WellFormed(again)
            && |L.FlushOps(again, L.HEALTHY)| == 2
            && L.FlushOps(again, L.HEALTHY)[0]
               == L.Erase(BlockAt(L.MountBlock(d), |Programs(RunOps(cap, L.Mount(d), es))| - 1))
  {
    MountGivesInv(d);
    QuietIsCareful(cap, L.Mount(d), es);
    CarefulRunKeepsInv(cap, L.Mount(d), es);
    InvGivesDataOk(Run(cap, L.Mount(d), es));
    MountFindsLastBegun(cap, d, es);
    ChosenBlockUsedIff(Run(cap, L.Mount(d), es).disk);
  }
}

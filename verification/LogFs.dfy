/** The child's file system as a state machine on values: what one call of append, flush,
    erase or mount does to the flash, the cursor, the index and the buffers. */
module LogFs {
  import opened Layout
  import opened CompressHeader
  import opened PageFormat
  import opened PageEncoder

  // ----- flash

  type Block = seq<seq<Byte>>
  type Disk = seq<Block>

  predicate BlockShape(blk: Block)
  {
    |blk| == PAGE_COUNT && forall p | 0 <= p < PAGE_COUNT :: |blk[p]| == PAGE_SIZE
  }

  predicate DiskShape(d: Disk)
  {
    |d| == BLOCK_COUNT && forall b | 0 <= b < BLOCK_COUNT :: BlockShape(d[b])
  }

  function BlankBlock(): Block { Repeat(BlankPage(), PAGE_COUNT) }

  function BlankDisk(): Disk { Repeat(BlankBlock(), BLOCK_COUNT) }

  /** A driver call that changed the flash. */
  datatype Op = Erase(block: nat) | Program(block: nat, page: nat, data: seq<Byte>)

  predicate OpOk(op: Op)
  {
    op.block < BLOCK_COUNT && (op.Program? ==> op.page < PAGE_COUNT)
  }

  /** mxfs_driver_write copies over the front of the page and leaves the rest. */
  function Overwrite(page: seq<Byte>, data: seq<Byte>): (r: seq<Byte>)
    requires |page| == PAGE_SIZE
    ensures |r| == PAGE_SIZE
  {
    var n := Min(|data|, PAGE_SIZE);
    data[..n] + page[n..]
  }

  function Apply(d: Disk, op: Op): (r: Disk)
    requires DiskShape(d) && OpOk(op)
    ensures DiskShape(r)
  {
    match op
    case Erase(b) => d[b := BlankBlock()]
    case Program(b, p, data) => d[b := d[b][p := Overwrite(d[b][p], data)]]
  }

  predicate OpsOk(ops: seq<Op>)
  {
    forall i | 0 <= i < |ops| :: OpOk(ops[i])
  }

  function ApplyAll(d: Disk, ops: seq<Op>): (r: Disk)
    requires DiskShape(d) && OpsOk(ops)
    ensures DiskShape(r)
  {
    if ops == [] then d else Apply(ApplyAll(d, ops[..|ops| - 1]), ops[|ops| - 1])
  }

  // ----- instance

  /** mxfs_block_status: the "used" flag, the page-0 time and one index byte per page. */
  datatype BlockStatus = BlockStatus(invalid: bool, startTime: U32, pages: seq<bv8>)

  datatype State = State(
    disk: Disk, block: nat, page: nat, status: seq<BlockStatus>, bufs: seq<seq<Rec>>)

  function EmptyBufs(): seq<seq<Rec>> { Repeat([], LAYER_MAX) }

  predicate WellFormed(s: State)
  {
    && DiskShape(s.disk)
    && BLOCK_START_DATA_AREA <= s.block < BLOCK_COUNT
    && s.page < PAGE_COUNT
    && |s.status| == BLOCK_COUNT
    && (forall b | 0 <= b < BLOCK_COUNT :: |s.status[b].pages| == PAGE_COUNT)
    && Fits(s.bufs)
  }

  function Flag(layer: nat): bv8
    requires layer < LAYER_MAX
  {
    match layer case 0 => 0x04 case 1 => 0x08 case 2 => 0x10 case 3 => 0x20 case 4 => 0x40 case _ => 0x80
  }

  /** The index byte of a page: one bit per layer it holds. */
  function PageFlags(bufs: seq<seq<Rec>>, n: nat): bv8
    requires n <= LAYER_MAX == |bufs|
  {
    if n == 0 then 0
    else if bufs[n - 1] == [] then PageFlags(bufs, n - 1)
    else PageFlags(bufs, n - 1) | Flag(n - 1)
  }

  /** How the driver answers the erase and the program of one flush. */
  datatype Driver = Driver(eraseOk: bool, programOk: bool)

  const HEALTHY := Driver(true, true)

  /** The driver calls of one flush that take effect, in order. */
  function FlushOps(s: State, drv: Driver): (ops: seq<Op>)
    requires WellFormed(s)
    ensures OpsOk(ops)
  {
    if AllEmpty(s.bufs) || (s.status[s.block].invalid && !drv.eraseOk) then []
    else
      (if s.status[s.block].invalid then [Erase(s.block)] else [])
      + (if drv.programOk then [Program(s.block, s.page, PageImage(s.bufs))] else [])
  }

  /** Index update and cursor advance after a successful program. */
  function Advance(s: State, flags: bv8): State
    requires s.block < |s.status| == BLOCK_COUNT && s.page < |s.status[s.block].pages|
  {
    var st := s.status[s.block];
    var status := s.status[s.block := st.(pages := st.pages[s.page := flags])];
    if s.page + 1 < PAGE_COUNT then s.(page := s.page + 1, status := status)
    else
      var next := if s.block + 1 < BLOCK_COUNT then s.block + 1 else BLOCK_START_DATA_AREA;
      s.(block := next, page := 0, status := status[next := status[next].(invalid := true)])
  }

  /** The state once the driver has answered: the buffers are drained and the "used" flag is cleared in
      any case. */
  function Drained(s: State, drv: Driver): (r: State)
    requires WellFormed(s)
    ensures r.block == s.block && r.page == s.page && |r.status| == BLOCK_COUNT
    ensures |r.status[s.block].pages| == PAGE_COUNT && |r.bufs| == LAYER_MAX && AllEmpty(r.bufs)
  {
    var st := s.status[s.block];
    s.(disk := ApplyAll(s.disk, FlushOps(s, drv)),
       status := s.status[s.block := st.(invalid := false)],
       bufs := EmptyBufs())
  }

  /** mxfs_flush. */
  function Flush(s: State, drv: Driver): (r: (State, int))
    requires WellFormed(s)
    ensures |r.0.bufs| == LAYER_MAX && AllEmpty(r.0.bufs)
  {
    if AllEmpty(s.bufs) then (s, OK)
    else if s.status[s.block].invalid && !drv.eraseOk then (Drained(s, drv), ERR)
    else if !drv.programOk then (Drained(s, drv), ERR)
    else (Advance(Drained(s, drv), PageFlags(s.bufs, LAYER_MAX)), OK)
  }

  predicate Accepts(layer: nat, length: nat)
  {
    layer < LAYER_MAX && length == RecordSize(layer)
  }

  /** The auto-flush decision of mxfs_append: the encoded size plus the raw record. */
  predicate MustFlush(s: State, length: nat)
    requires WellFormed(s)
  {
    TotalLength(s.bufs, LAYER_MAX) + length > PAGE_SIZE - 64
  }

  predicate FlushesNow(s: State, layer: nat, length: nat)
    requires WellFormed(s)
  {
    Accepts(layer, length) && MustFlush(s, length)
  }

  /** mxfs_append with per-layer buffers of `cap` bytes. */
  function Append(cap: nat, s: State, layer: nat, time: U64, payload: seq<Byte>, drv: Driver): (State, int)
    requires WellFormed(s)
  {
    if !Accepts(layer, |payload|) then (s, ERR)
    else
      var s1 := if MustFlush(s, |payload|) then Flush(s, drv).0 else s;
      if |s1.bufs[layer]| * (TIME_SIZE + RecordSize(layer)) + TIME_SIZE + |payload| > cap
      then (s1, NEED_MORE_BUFFER)
      else (s1.(bufs := s1.bufs[layer := s1.bufs[layer] + [Rec(time, payload)]]), OK)
  }

  function AppendOps(s: State, layer: nat, length: nat, drv: Driver): (ops: seq<Op>)
    requires WellFormed(s)
    ensures OpsOk(ops)
  {
    if FlushesNow(s, layer, length) then FlushOps(s, drv) else []
  }

  // ----- mount

  /** Seconds in the header of page 0, all ones on a blank block. */
  function HeaderTime(blk: Block): U32
    requires BlockShape(blk)
  {
    WordAt(blk[0], 4)
  }

  predicate UsedBlock(blk: Block)
    requires BlockShape(blk)
  {
    HasMagic(blk[0])
  }

  function MountedStatus(blk: Block): BlockStatus
    requires BlockShape(blk)
  {
    BlockStatus(UsedBlock(blk), HeaderTime(blk), Repeat<bv8>(0xFF, PAGE_COUNT))
  }

  /** The scan of the block headers: stop at an unused block, else remember the newest time. */
  function ScanFrom(d: Disk, b: nat, best: nat, bestTime: nat): nat
    requires DiskShape(d) && b <= BLOCK_COUNT
    decreases BLOCK_COUNT - b
  {
    if b == BLOCK_COUNT then best
    else if !UsedBlock(d[b]) then b
    else if HeaderTime(d[b]) > bestTime then ScanFrom(d, b + 1, b, HeaderTime(d[b]))
    else ScanFrom(d, b + 1, best, bestTime)
  }

  function MountBlock(d: Disk): nat
    requires DiskShape(d)
  {
    ScanFrom(d, BLOCK_START_DATA_AREA, BLOCK_START_DATA_AREA, 0)
  }

  function MountStatus(d: Disk, n: nat): (status: seq<BlockStatus>)
    requires DiskShape(d) && n <= BLOCK_COUNT
    ensures |status| == n
    ensures forall b | 0 <= b < n ::
      status[b] == if b < BLOCK_START_DATA_AREA then BlockStatus(false, 0, Repeat<bv8>(0, PAGE_COUNT))
                   else MountedStatus(d[b])
  {
    if n == 0 then []
    else MountStatus(d, n - 1)
         + [if n - 1 < BLOCK_START_DATA_AREA then BlockStatus(false, 0, Repeat<bv8>(0, PAGE_COUNT))
            else MountedStatus(d[n - 1])]
  }

  function Mount(d: Disk): (r: State)
    requires DiskShape(d)
    ensures WellFormed(r)
  {
    ScanInRange(d, BLOCK_START_DATA_AREA, BLOCK_START_DATA_AREA, 0);
    EmptyBufsFit();
    State(d, MountBlock(d), 0, MountStatus(d, BLOCK_COUNT), EmptyBufs())
  }

  // ----- well-formedness is kept by every call

  lemma EmptyBufsFit()
    ensures Fits(EmptyBufs()) && AllEmpty(EmptyBufs()) && TotalLength(EmptyBufs(), LAYER_MAX) == 0
  {
    TotalOfEmpty(EmptyBufs(), LAYER_MAX);
  }

  lemma {:induction false} TotalOfEmpty(bufs: seq<seq<Rec>>, n: nat)
    requires n <= |bufs| && forall l | 0 <= l < n :: bufs[l] == []
    ensures TotalLength(bufs, n) == 0
  {
    if n > 0 {
      TotalOfEmpty(bufs, n - 1);
    }
  }

  lemma AdvanceWellFormed(s: State, flags: bv8)
    requires WellFormed(s)
    ensures WellFormed(Advance(s, flags))
    ensures Advance(s, flags).disk == s.disk && Advance(s, flags).bufs == s.bufs
  {
  }

  lemma FlushWellFormed(s: State, drv: Driver)
    requires WellFormed(s)
    ensures WellFormed(Flush(s, drv).0)
    ensures Flush(s, drv).0.disk == ApplyAll(s.disk, FlushOps(s, drv))
    ensures Flush(s, drv).0.bufs == if AllEmpty(s.bufs) then s.bufs else EmptyBufs()
  {
    if AllEmpty(s.bufs) {
      assert ApplyAll(s.disk, []) == s.disk;
    } else {
      EmptyBufsFit();
      AdvanceWellFormed(Drained(s, drv), PageFlags(s.bufs, LAYER_MAX));
    }
  }

  lemma {:induction false} TotalLengthGrows(bufs: seq<seq<Rec>>, layer: nat, rec: Rec, n: nat)
    requires |bufs| == LAYER_MAX && layer < LAYER_MAX && n <= LAYER_MAX
    ensures var more := bufs[layer := bufs[layer] + [rec]];
            TotalLength(more, n) == TotalLength(bufs, n)
              + if layer < n then LayerLength(layer, |bufs[layer]| + 1) - LayerLength(layer, |bufs[layer]|) else 0
  {
    if n > 0 {
      TotalLengthGrows(bufs, layer, rec, n - 1);
    }
  }

  /** The state a record is appended to: buffers after the auto-flush decision. */
  function BeforeBuffering(s: State, layer: nat, length: nat, drv: Driver): State
    requires WellFormed(s)
  {
    if FlushesNow(s, layer, length) then Flush(s, drv).0 else s
  }

  lemma RoomForRecord(s: State, layer: nat, length: nat, drv: Driver)
    requires WellFormed(s) && Accepts(layer, length)
    ensures var s1 := BeforeBuffering(s, layer, length, drv);
            WellFormed(s1) && TotalLength(s1.bufs, LAYER_MAX) + length <= PAGE_SIZE - 64
  {
    if MustFlush(s, length) {
      FlushWellFormed(s, drv);
      TotalOfEmpty(Flush(s, drv).0.bufs, LAYER_MAX);
    }
  }

  /** One more record below the auto-flush threshold of 1984 costs at most one more header: the
      page stays within 2000 bytes. */
  lemma OneMoreFits(bufs: seq<seq<Rec>>, layer: nat, rec: Rec)
    requires Fits(bufs) && Accepts(layer, |rec.payload|)
    requires TotalLength(bufs, LAYER_MAX) + |rec.payload| <= PAGE_SIZE - 64
    ensures Fits(bufs[layer := bufs[layer] + [rec]])
  {
    TotalLengthGrows(bufs, layer, rec, LAYER_MAX);
  }

  lemma AppendWellFormed(cap: nat, s: State, layer: nat, time: U64, payload: seq<Byte>, drv: Driver)
    requires WellFormed(s)
    ensures WellFormed(Append(cap, s, layer, time, payload, drv).0)
    ensures Append(cap, s, layer, time, payload, drv).0.disk
            == ApplyAll(s.disk, AppendOps(s, layer, |payload|, drv))
  {
    if Accepts(layer, |payload|) {
      FlushWellFormed(s, drv);
      RoomForRecord(s, layer, |payload|, drv);
      OneMoreFits(BeforeBuffering(s, layer, |payload|, drv).bufs, layer, Rec(time, payload));
    }
  }

  lemma {:induction false} ScanInRange(d: Disk, b: nat, best: nat, bestTime: nat)
    requires DiskShape(d) && BLOCK_START_DATA_AREA <= b <= BLOCK_COUNT
    requires BLOCK_START_DATA_AREA <= best < BLOCK_COUNT
    ensures BLOCK_START_DATA_AREA <= ScanFrom(d, b, best, bestTime) < BLOCK_COUNT
    decreases BLOCK_COUNT - b
  {
    if b < BLOCK_COUNT && UsedBlock(d[b]) {
      if HeaderTime(d[b]) > bestTime {
        ScanInRange(d, b + 1, b, HeaderTime(d[b]));
      } else {
        ScanInRange(d, b + 1, best, bestTime);
      }
    }
  }
}

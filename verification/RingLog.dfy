/** One session without failures, from the mount of any chip in order: the flash is a bounded sliding
    window over the log of flushed pages on top of the mounted chip, and cursor, erase marks and erase
    counts are functions of the number of flushes. */
module RingLog {
  import opened Layout
  import opened PageEncoder
  import opened Runs
  import opened EraseDiscipline
  import L = LogFs

  const DATA_BLOCKS: int := BLOCK_COUNT - BLOCK_START_DATA_AREA

  // ----- where flush number m of the session lands and who owns a slot after n flushes

  /** A session whose mount chose block `r` fills the ring from there. */
  function BlockAt(r: nat, m: nat): nat
    requires r >= BLOCK_START_DATA_AREA
  {
    BLOCK_START_DATA_AREA + (r - BLOCK_START_DATA_AREA + m / PAGE_COUNT) % DATA_BLOCKS
  }

  function PageOf(m: nat): nat { m % PAGE_COUNT }

  /** How many blocks the ring has to turn from `r` until it reaches block `b`. */
  function Lane(r: nat, b: nat): nat { (b - r) % DATA_BLOCKS }

  function LaneOf(m: nat): nat { m / PAGE_COUNT % DATA_BLOCKS }

  /** Has the session begun to fill block `b` within its first n flushes? */
  predicate Reached(r: nat, n: nat, b: nat) { PAGE_COUNT * Lane(r, b) < n }

  /** The last pass over lane `j` (negative: none yet) among the rows of 64 flushes begun so far. */
  function OwnerRow(n: nat, j: nat): int
  {
    var row := (n - 1) / PAGE_COUNT;
    row - (row - j) % DATA_BLOCKS
  }

  function Owner(n: nat, j: nat, p: nat): int { PAGE_COUNT * OwnerRow(n, j) + p }

  /** The oldest flush still on the flash. */
  function First(n: nat): nat
  {
    var row := (n - 1) / PAGE_COUNT - (DATA_BLOCKS - 1);
    if row <= 0 then 0 else PAGE_COUNT * row
  }

  predicate InData(b: int) { BLOCK_START_DATA_AREA <= b < BLOCK_COUNT }

  lemma LaneOfBlock(r: nat, m: nat, b: nat)
    requires InData(r) && InData(b)
    ensures InData(BlockAt(r, m))
    ensures Lane(r, b) == LaneOf(m) <==> b == BlockAt(r, m)
  {
    var a, q := r - BLOCK_START_DATA_AREA, m / PAGE_COUNT;
    TurnBack(a, q, b - BLOCK_START_DATA_AREA);
  }

  lemma LaneZeroIff(r: nat, b: nat)
    requires InData(r) && InData(b)
    ensures Lane(r, b) < DATA_BLOCKS && (Lane(r, b) == 0 <==> b == r)
  {
    TurnBack(r - BLOCK_START_DATA_AREA, 0, b - BLOCK_START_DATA_AREA);
  }

  lemma TurnBack(a: nat, q: nat, c: nat)
    requires a < DATA_BLOCKS && c < DATA_BLOCKS
    ensures (c - a) % DATA_BLOCKS == q % DATA_BLOCKS <==> c == (a + q) % DATA_BLOCKS
  {
    var x, k := q % DATA_BLOCKS, q / DATA_BLOCKS;
    assert q == k * DATA_BLOCKS + x;
    ShiftModulo(a + x, k);
    assert (a + q) % DATA_BLOCKS == if a + x < DATA_BLOCKS then a + x else a + x - DATA_BLOCKS;
    assert (c - a) % DATA_BLOCKS == if c >= a then c - a else c - a + DATA_BLOCKS;
  }

  /** A lane has an owner once its block is reached. */
  lemma OwnedIff(n: nat, j: nat)
    requires j < DATA_BLOCKS
    ensures OwnerRow(n, j) >= 0 <==> PAGE_COUNT * j < n
  {
    var row := (n - 1) / PAGE_COUNT;
    assert PAGE_COUNT * j < n <==> j <= row;
    if j <= row {
      RemainderAtMost(row - j);
    } else if row - j > -DATA_BLOCKS {
      assert (row - j) % DATA_BLOCKS == row - j + DATA_BLOCKS;
    }
  }

  lemma RemainderAtMost(x: nat)
    ensures x % DATA_BLOCKS <= x
  {
  }

  /** Flush m still owns its slot after n flushes iff its row is among the last 1023; otherwise a
      later flush number does. */
  lemma IntactIff(n: nat, m: nat)
    requires m < n
    ensures m <= Owner(n, LaneOf(m), PageOf(m))
    ensures Owner(n, LaneOf(m), PageOf(m)) == m <==> m / PAGE_COUNT >= (n - 1) / PAGE_COUNT - (DATA_BLOCKS - 1)
    ensures m / PAGE_COUNT >= (n - 1) / PAGE_COUNT - (DATA_BLOCKS - 1) <==> First(n) <= m
  {
    var row, r := (n - 1) / PAGE_COUNT, m / PAGE_COUNT;
    assert m == PAGE_COUNT * r + PageOf(m);
    assert r <= row;
    RowDistance(row, r);
    RemainderAtMost(row - r);
  }

  lemma RowDistance(row: nat, r: nat)
    requires r <= row
    ensures (row - r % DATA_BLOCKS) % DATA_BLOCKS == (row - r) % DATA_BLOCKS
    ensures (row - r) % DATA_BLOCKS == row - r <==> row - r <= DATA_BLOCKS - 1
  {
    var k := r / DATA_BLOCKS;
    assert r == k * DATA_BLOCKS + r % DATA_BLOCKS;
    ShiftModulo(row - r, k);
  }

  lemma ShiftModulo(x: int, k: int)
    ensures (x + k * DATA_BLOCKS) % DATA_BLOCKS == x % DATA_BLOCKS
  {
  }

  /** One more flush changes the owner of exactly one slot, except that a new row first takes
      over its whole lane. */
  lemma OwnerStep(n: nat, j: nat)
    requires j < DATA_BLOCKS
    ensures n % PAGE_COUNT != 0 || j != LaneOf(n) ==> OwnerRow(n + 1, j) == OwnerRow(n, j)
    ensures j == LaneOf(n) ==> OwnerRow(n + 1, j) == n / PAGE_COUNT
  {
    var row := (n - 1) / PAGE_COUNT;
    if n % PAGE_COUNT == 0 {
      assert n / PAGE_COUNT == row + 1;
      if j != LaneOf(n) {
        NextRow(row, j);
      }
    } else {
      assert n / PAGE_COUNT == row;
    }
    if j == LaneOf(n) {
      RowDistance(n / PAGE_COUNT, n / PAGE_COUNT);
    }
  }

  lemma NextRow(row: int, j: nat)
    requires row >= -1 && j < DATA_BLOCKS && j != (row + 1) % DATA_BLOCKS
    ensures (row + 1 - j) % DATA_BLOCKS == (row - j) % DATA_BLOCKS + 1
  {
    var x := row - j;
    assert x == x / DATA_BLOCKS * DATA_BLOCKS + x % DATA_BLOCKS;
    if x % DATA_BLOCKS == DATA_BLOCKS - 1 {
      assert row + 1 == (x / DATA_BLOCKS + 1) * DATA_BLOCKS + j;
      ShiftModulo(j, x / DATA_BLOCKS + 1);
      assert false;
    } else {
      ShiftModulo(x % DATA_BLOCKS + 1, x / DATA_BLOCKS);
    }
  }

  // ----- the log of a trace

  function Programs(ops: seq<L.Op>): seq<L.Op>
  {
    if ops == [] then []
    else
      var op := ops[|ops| - 1];
      Programs(ops[..|ops| - 1]) + if op.Program? then [op] else []
  }

  function EraseCount(ops: seq<L.Op>, b: nat): nat
  {
    if ops == [] then 0
    else EraseCount(ops[..|ops| - 1], b) + if ops[|ops| - 1] == L.Erase(b) then 1 else 0
  }

  lemma {:induction false} ProgramsConcat(a: seq<L.Op>, b: seq<L.Op>)
    ensures Programs(a + b) == Programs(a) + Programs(b)
    decreases |b|
  {
    if b == [] {
      assert a + b == a;
    } else {
      ProgramsConcat(a, b[..|b| - 1]);
      assert (a + b)[..|a + b| - 1] == a + b[..|b| - 1];
    }
  }

  lemma {:induction false} EraseCountConcat(x: seq<L.Op>, y: seq<L.Op>, b: nat)
    ensures EraseCount(x + y, b) == EraseCount(x, b) + EraseCount(y, b)
    decreases |y|
  {
    if y == [] {
      assert x + y == x;
    } else {
      EraseCountConcat(x, y[..|y| - 1], b);
      assert (x + y)[..|x + y| - 1] == x + y[..|y| - 1];
    }
  }

  /** Rows 1 .. (n-1)/64 that begin at lane `j`: each of them erased its block once. */
  function RowsErased(n: nat, j: nat): int
  {
    var row := (n - 1) / PAGE_COUNT;
    if row < 0 then 0
    else if j == 0 then row / DATA_BLOCKS
    else (row - j) / DATA_BLOCKS + 1
  }

  /** Erases of block `b` in n flushes; row 0 erases only if the mount found its block used. */
  function Erased(d: L.Disk, n: nat, b: nat): int
    requires L.DiskShape(d) && InData(b)
  {
    RowsErased(n, Lane(L.MountBlock(d), b))
    + if n > 0 && b == L.MountBlock(d) && L.UsedBlock(d[b]) then 1 else 0
  }

  /** The pages of a log may be programmed in the given order from block `r` on. */
  predicate LogOk(r: nat, log: seq<L.Op>)
  {
    InData(r)
    && forall m | 0 <= m < |log| ::
      && log[m].Program?
      && log[m].block == BlockAt(r, m)
      && log[m].page == PageOf(m)
      && |log[m].data| <= 2000
  }

  /** What the flash holds in a slot: the chip as it was mounted until the ring reaches the block,
      then the last flush that landed there. */
  function Expected(d: L.Disk, r: nat, log: seq<L.Op>, b: nat, p: nat): seq<Byte>
    requires L.DiskShape(d) && LogOk(r, log) && InData(b) && p < PAGE_COUNT
  {
    var n, j := |log|, Lane(r, b);
    OwnedIff(n, j);
    if !Reached(r, n, b) then d[b][p]
    else if Owner(n, j, p) < n then Padded(log[Owner(n, j, p)].data)
    else BlankPage()
  }

  /** The cursor after n flushes. A block is marked for erase exactly when the cursor has just
      entered it, or when the mount found it used and the ring has not reached it. */
  predicate CursorAt(d: L.Disk, s: L.State, n: nat)
    requires L.DiskShape(d) && L.WellFormed(s)
  {
    var r := L.MountBlock(d);
    && InData(r)
    && s.block == BlockAt(r, n)
    && s.page == PageOf(n)
    && forall b | BLOCK_START_DATA_AREA <= b < BLOCK_COUNT ::
         s.status[b].invalid
         <==> (n > 0 && PageOf(n) == 0 && b == s.block) || (L.UsedBlock(d[b]) && !Reached(r, n, b))
  }

  /** The flash is exactly the window over the log, on top of the mounted chip. */
  predicate Window(d: L.Disk, now: L.Disk, log: seq<L.Op>)
    requires L.DiskShape(d) && L.DiskShape(now) && LogOk(L.MountBlock(d), log)
  {
    forall b, p | BLOCK_START_DATA_AREA <= b < BLOCK_COUNT && 0 <= p < PAGE_COUNT ::
      now[b][p] == Expected(d, L.MountBlock(d), log, b, p)
  }

  predicate WearAt(d: L.Disk, ops: seq<L.Op>, n: nat)
    requires L.DiskShape(d)
  {
    forall b | BLOCK_START_DATA_AREA <= b < BLOCK_COUNT :: EraseCount(ops, b) == Erased(d, n, b)
  }

  /** The state of a session that mounted `d` and performed `ops` since. */
  predicate RingState(d: L.Disk, s: L.State, ops: seq<L.Op>)
    requires L.DiskShape(d) && L.WellFormed(s)
  {
    var log := Programs(ops);
    LogOk(L.MountBlock(d), log) && CursorAt(d, s, |log|) && Window(d, s.disk, log) && WearAt(d, ops, |log|)
  }

  // ----- one flush

  lemma WearStep(n: nat, j: nat)
    requires j < DATA_BLOCKS
    ensures RowsErased(n + 1, j) == RowsErased(n, j) + if n > 0 && PageOf(n) == 0 && j == LaneOf(n) then 1 else 0
  {
    var row := (n - 1) / PAGE_COUNT;
    if PageOf(n) == 0 {
      assert n / PAGE_COUNT == row + 1;
      if n > 0 {
        QuotientStep(row - j);
        assert (row + 1) % DATA_BLOCKS == j <==> (row + 1 - j) % DATA_BLOCKS == 0 by {
          ResidueIff(row + 1, j);
        }
      }
    } else {
      assert n / PAGE_COUNT == row;
    }
  }

  lemma QuotientStep(x: int)
    ensures (x + 1) / DATA_BLOCKS == x / DATA_BLOCKS + if (x + 1) % DATA_BLOCKS == 0 then 1 else 0
  {
  }

  lemma ResidueIff(x: nat, j: nat)
    requires j < DATA_BLOCKS
    ensures x % DATA_BLOCKS == j <==> (x - j) % DATA_BLOCKS == 0
  {
    assert x == x / DATA_BLOCKS * DATA_BLOCKS + x % DATA_BLOCKS;
    ShiftModulo(x % DATA_BLOCKS - j, x / DATA_BLOCKS);
  }

  lemma ReachedStep(r: nat, n: nat, b: nat)
    requires InData(r) && InData(b)
    ensures Reached(r, n + 1, b) <==> Reached(r, n, b) || b == BlockAt(r, n)
    ensures b == BlockAt(r, n) && PageOf(n) > 0 ==> Reached(r, n, b)
  {
    LaneOfBlock(r, n, b);
    RemainderAtMost(n / PAGE_COUNT);
    assert n == PAGE_COUNT * (n / PAGE_COUNT) + PageOf(n);
  }

  lemma OwnersStep(n: nat, j: nat, p: nat)
    requires j < DATA_BLOCKS && p < PAGE_COUNT
    ensures j != LaneOf(n) ==> Owner(n + 1, j, p) == Owner(n, j, p) && Owner(n, j, p) != n
    ensures j == LaneOf(n) ==> Owner(n + 1, j, p) == n - PageOf(n) + p
    ensures j == LaneOf(n) && PageOf(n) != 0 ==> Owner(n, j, p) == n - PageOf(n) + p
  {
    OwnerStep(n, j);
    assert n == PAGE_COUNT * (n / PAGE_COUNT) + PageOf(n);
    if j != LaneOf(n) {
      OtherOwnerIsOlder(n, j);
    }
  }

  lemma OtherOwnerIsOlder(n: nat, j: nat)
    requires j < DATA_BLOCKS && j != LaneOf(n)
    ensures OwnerRow(n, j) < n / PAGE_COUNT
  {
    var row := (n - 1) / PAGE_COUNT;
    if PageOf(n) == 0 {
      assert n / PAGE_COUNT == row + 1;
    } else {
      assert n / PAGE_COUNT == row;
      if (row - j) % DATA_BLOCKS == 0 {
        ResidueIff(row, j);
      }
    }
  }

  /** What one more flush changes on the flash: the programmed page, and the rest of its block when
      the flush begins a row. */
  lemma ExpectedStep(d: L.Disk, r: nat, log: seq<L.Op>, op: L.Op, b: nat, p: nat)
    requires L.DiskShape(d) && LogOk(r, log) && LogOk(r, log + [op]) && InData(b) && p < PAGE_COUNT
    ensures var n := |log|;
            Expected(d, r, log + [op], b, p)
            == if b == BlockAt(r, n) && p == PageOf(n) then Padded(op.data)
               else if b == BlockAt(r, n) && PageOf(n) == 0 then BlankPage()
               else Expected(d, r, log, b, p)
  {
    LaneOfBlock(r, |log|, b);
    ReachedStep(r, |log|, b);
    OwnersStep(|log|, Lane(r, b), p);
    OwnedIff(|log|, Lane(r, b));
    OwnedIff(|log| + 1, Lane(r, b));
  }

  lemma TargetExpected(d: L.Disk, r: nat, log: seq<L.Op>)
    requires L.DiskShape(d) && LogOk(r, log) && InData(BlockAt(r, |log|))
    ensures PageOf(|log|) > 0 ==> Expected(d, r, log, BlockAt(r, |log|), PageOf(|log|)) == BlankPage()
    ensures |log| == 0 ==>
              forall p: nat | p < PAGE_COUNT :: Expected(d, r, log, BlockAt(r, |log|), p) == d[BlockAt(r, |log|)][p]
  {
    LaneOfBlock(r, |log|, BlockAt(r, |log|));
    ReachedStep(r, |log|, BlockAt(r, |log|));
    OwnersStep(|log|, LaneOf(|log|), PageOf(|log|));
  }

  lemma CursorStep(r: nat, n: nat)
    requires InData(r)
    ensures BlockAt(r, n + 1) == if PageOf(n) + 1 < PAGE_COUNT then BlockAt(r, n)
                                 else if BlockAt(r, n) + 1 < BLOCK_COUNT then BlockAt(r, n) + 1
                                 else BLOCK_START_DATA_AREA
    ensures PageOf(n + 1) == if PageOf(n) + 1 < PAGE_COUNT then PageOf(n) + 1 else 0
  {
    if PageOf(n) + 1 < PAGE_COUNT {
      assert (n + 1) / PAGE_COUNT == n / PAGE_COUNT;
    } else {
      assert (n + 1) / PAGE_COUNT == n / PAGE_COUNT + 1;
    }
  }

  /** A healthy flush adds its page to the log ... */
  lemma FlushTrace(s: L.State, ops: seq<L.Op>)
    requires L.WellFormed(s) && !AllEmpty(s.bufs)
    ensures Programs(ops + L.FlushOps(s, L.HEALTHY))
            == Programs(ops) + [L.Program(s.block, s.page, PageImage(s.bufs))]
  {
    var erase, program := L.Erase(s.block), L.Program(s.block, s.page, PageImage(s.bufs));
    FlushOpsSplit(s);
    ProgramsOne(erase);
    ProgramsOne(program);
    ProgramsConcat([erase], [program]);
    ProgramsConcat(ops, L.FlushOps(s, L.HEALTHY));
  }

  /** ... and erases the block at the cursor if it is marked. */
  lemma FlushErases(s: L.State, ops: seq<L.Op>, b: nat)
    requires L.WellFormed(s) && !AllEmpty(s.bufs)
    ensures EraseCount(ops + L.FlushOps(s, L.HEALTHY), b)
            == EraseCount(ops, b) + if s.status[s.block].invalid && b == s.block then 1 else 0
  {
    var erase, program := L.Erase(s.block), L.Program(s.block, s.page, PageImage(s.bufs));
    FlushOpsSplit(s);
    EraseCountOne(erase, b);
    EraseCountOne(program, b);
    EraseCountConcat([erase], [program], b);
    EraseCountConcat(ops, L.FlushOps(s, L.HEALTHY), b);
  }

  lemma FlushOpsSplit(s: L.State)
    requires L.WellFormed(s) && !AllEmpty(s.bufs)
    ensures L.FlushOps(s, L.HEALTHY)
            == (if s.status[s.block].invalid then [L.Erase(s.block)] + [L.Program(s.block, s.page, PageImage(s.bufs))]
                else [L.Program(s.block, s.page, PageImage(s.bufs))])
  {
  }

  lemma ProgramsOne(op: L.Op)
    ensures Programs([op]) == if op.Program? then [op] else []
  {
    assert [op][..0] == [];
  }

  lemma EraseCountOne(op: L.Op, b: nat)
    ensures EraseCount([op], b) == if op == L.Erase(b) then 1 else 0
  {
    assert [op][..0] == [];
  }

  /** The erase marks after the cursor advance. */
  lemma AdvanceMarks(s: L.State, flags: bv8)
    requires L.WellFormed(s)
    ensures var s' := L.Advance(s, flags);
            && s'.bufs == s.bufs
            && forall b | InData(b) ::
                 s'.status[b].invalid <==> (s'.page == 0 && b == s'.block) || s.status[b].invalid
  {
  }

  /** The page a flush programs is blank at that moment. */
  lemma TargetPageIsBlank(d: L.Disk, s: L.State, log: seq<L.Op>)
    requires DataOk(d) && L.WellFormed(s) && LogOk(L.MountBlock(d), log)
    requires CursorAt(d, s, |log|) && Window(d, s.disk, log)
    ensures Blank(TargetBlock(s)[s.page])
    ensures PageOf(|log|) == 0 ==> forall p | 0 <= p < PAGE_COUNT :: Blank(TargetBlock(s)[p])
    ensures PageOf(|log|) > 0 ==> TargetBlock(s) == s.disk[s.block]
  {
    TargetExpected(d, L.MountBlock(d), log);
    ReachedStep(L.MountBlock(d), |log|, s.block);
    assert BlockOk(d[s.block], AnyIndex());
    UnusedBlockIsBlank(d[s.block], AnyIndex());
  }

  lemma ProgrammedSlot(s: L.State, b: nat, p: nat)
    requires L.WellFormed(s) && b < BLOCK_COUNT && p < PAGE_COUNT && Blank(TargetBlock(s)[s.page])
    ensures L.DiskShape(Programmed(s).disk)
    ensures Programmed(s).disk[b][p]
            == if b != s.block then s.disk[b][p]
               else if p == s.page then Padded(PageImage(s.bufs))
               else TargetBlock(s)[p]
  {
    OverwriteBlank(PageImage(s.bufs));
  }

  lemma LogGrowsOk(r: nat, log: seq<L.Op>, op: L.Op)
    requires LogOk(r, log) && op.Program? && |op.data| <= 2000
    requires op.block == BlockAt(r, |log|) && op.page == PageOf(|log|)
    ensures LogOk(r, log + [op])
  {
  }

  lemma SlotStep(d: L.Disk, s: L.State, log: seq<L.Op>, op: L.Op, b: nat, p: nat)
    requires L.DiskShape(d) && L.WellFormed(s) && LogOk(L.MountBlock(d), log) && LogOk(L.MountBlock(d), log + [op])
    requires InData(b) && p < PAGE_COUNT && s.disk[b][p] == Expected(d, L.MountBlock(d), log, b, p)
    requires s.block == BlockAt(L.MountBlock(d), |log|) && s.page == PageOf(|log|)
    requires op.data == PageImage(s.bufs) && Blank(TargetBlock(s)[s.page])
    requires if PageOf(|log|) == 0 then Blank(TargetBlock(s)[p]) else TargetBlock(s) == s.disk[s.block]
    ensures L.DiskShape(Programmed(s).disk)
    ensures Programmed(s).disk[b][p] == Expected(d, L.MountBlock(d), log + [op], b, p)
  {
    ProgrammedSlot(s, b, p);
    ExpectedStep(d, L.MountBlock(d), log, op, b, p);
  }

  /** The slots after a flush are those of the longer log. */
  lemma FlushKeepsWindow(d: L.Disk, s: L.State, log: seq<L.Op>, op: L.Op)
    requires DataOk(d) && L.WellFormed(s) && LogOk(L.MountBlock(d), log)
    requires CursorAt(d, s, |log|) && Window(d, s.disk, log)
    requires op == L.Program(s.block, s.page, PageImage(s.bufs)) && L.WellFormed(Programmed(s))
    ensures LogOk(L.MountBlock(d), log + [op]) && Window(d, Programmed(s).disk, log + [op])
  {
    TargetPageIsBlank(d, s, log);
    LogGrowsOk(L.MountBlock(d), log, op);
    forall b, p | BLOCK_START_DATA_AREA <= b < BLOCK_COUNT && 0 <= p < PAGE_COUNT
      ensures Programmed(s).disk[b][p] == Expected(d, L.MountBlock(d), log + [op], b, p)
    {
      SlotStep(d, s, log, op, b, p);
    }
  }

  lemma FlushKeepsCursor(d: L.Disk, s: L.State, n: nat, flags: bv8)
    requires L.DiskShape(d) && L.WellFormed(s) && CursorAt(d, s, n) && L.WellFormed(Programmed(s))
    ensures L.WellFormed(L.Advance(Programmed(s), flags)) && CursorAt(d, L.Advance(Programmed(s), flags), n + 1)
  {
    var r, s' := L.MountBlock(d), L.Advance(Programmed(s), flags);
    CursorStep(r, n);
    AdvanceIndex(Programmed(s), flags);
    AdvanceMarks(Programmed(s), flags);
    forall b | InData(b)
      ensures s'.status[b].invalid
              <==> (PageOf(n + 1) == 0 && b == s'.block) || (L.UsedBlock(d[b]) && !Reached(r, n + 1, b))
    {
      ReachedStep(r, n, b);
    }
  }

  /** A flush erases exactly when the block at the cursor is marked. */
  lemma ErasedStep(d: L.Disk, n: nat, b: nat)
    requires L.DiskShape(d) && InData(b) && InData(L.MountBlock(d))
    ensures var r := L.MountBlock(d);
            Erased(d, n + 1, b) == Erased(d, n, b)
              + if b == BlockAt(r, n) && ((n > 0 && PageOf(n) == 0) || (L.UsedBlock(d[b]) && !Reached(r, n, b)))
                then 1 else 0
  {
    var r := L.MountBlock(d);
    WearStep(n, Lane(r, b));
    LaneOfBlock(r, n, b);
    if n == 0 {
      FirstBlock(r, b);
    } else {
      BegunWhenReached(r, n);
    }
  }

  lemma FirstBlock(r: nat, b: nat)
    requires InData(r) && InData(b)
    ensures BlockAt(r, 0) == r && !Reached(r, 0, b)
  {
    LaneOfBlock(r, 0, r);
  }

  /** A later block at the cursor that the ring has not reached has just been entered. */
  lemma BegunWhenReached(r: nat, n: nat)
    requires InData(r) && n > 0
    ensures InData(BlockAt(r, n))
    ensures !Reached(r, n, BlockAt(r, n)) ==> PageOf(n) == 0
  {
    LaneOfBlock(r, n, BlockAt(r, n));
    ReachedStep(r, n, BlockAt(r, n));
  }

  lemma FlushKeepsWear(d: L.Disk, s: L.State, ops: seq<L.Op>, n: nat)
    requires L.DiskShape(d) && L.WellFormed(s) && CursorAt(d, s, n) && WearAt(d, ops, n) && !AllEmpty(s.bufs)
    ensures WearAt(d, ops + L.FlushOps(s, L.HEALTHY), n + 1)
  {
    forall b | BLOCK_START_DATA_AREA <= b < BLOCK_COUNT
      ensures EraseCount(ops + L.FlushOps(s, L.HEALTHY), b) == Erased(d, n + 1, b)
    {
      FlushErases(s, ops, b);
      ErasedStep(d, n, b);
    }
  }

  lemma RingFlush(d: L.Disk, s: L.State, ops: seq<L.Op>)
    requires DataOk(d) && L.WellFormed(s) && RingState(d, s, ops)
    ensures L.WellFormed(L.Flush(s, L.HEALTHY).0)
    ensures RingState(d, L.Flush(s, L.HEALTHY).0, ops + L.FlushOps(s, L.HEALTHY))
  {
    if AllEmpty(s.bufs) {
      assert ops + [] == ops;
    } else {
      var log, flags := Programs(ops), L.PageFlags(s.bufs, LAYER_MAX);
      FlushIsProgramThenAdvance(s, L.HEALTHY);
      FlushKeepsWindow(d, s, log, L.Program(s.block, s.page, PageImage(s.bufs)));
      FlushKeepsCursor(d, s, |log|, flags);
      FlushKeepsWear(d, s, ops, |log|);
      FlushTrace(s, ops);
      AdvanceIndex(Programmed(s), flags);
    }
  }

  // ----- runs

  /** Appends and flushes only, and a driver that never fails. */
  predicate Quiet(es: seq<Event>)
  {
    forall i | 0 <= i < |es| ::
      && (es[i].Append? || es[i].Flush?)
      && (es[i].Append? ==> es[i].drv == L.HEALTHY)
      && (es[i].Flush? ==> es[i].drv == L.HEALTHY)
  }

  lemma {:induction false} QuietIsCareful(cap: nat, s: L.State, es: seq<Event>)
    requires L.WellFormed(s) && EventsOk(es) && Quiet(es)
    ensures CarefulRun(cap, s, es)
  {
    if es != [] {
      QuietIsCareful(cap, s, es[..|es| - 1]);
    }
  }

  lemma RingIgnoresBuffers(d: L.Disk, s: L.State, ops: seq<L.Op>, bufs: seq<seq<Rec>>)
    requires L.DiskShape(d) && L.WellFormed(s) && Fits(bufs)
    ensures RingState(d, s.(bufs := bufs), ops) <==> RingState(d, s, ops)
  {
  }

  /** Every quiet event is at most one flush, apart from what it buffers. */
  lemma EventIsFlushOrNothing(cap: nat, s: L.State, e: Event)
    requires L.WellFormed(s) && EventOk(e) && Quiet([e])
    ensures EventOps(s, e) != [] ==> EventOps(s, e) == L.FlushOps(s, L.HEALTHY) && !AllEmpty(s.bufs)
    ensures var s' := Step(cap, s, e);
            var base := if EventOps(s, e) != [] then L.Flush(s, L.HEALTHY).0 else s;
            s' == base.(bufs := s'.bufs)
  {
    assert [e][0] == e;
    if e.Append? {
      AppendIsFlushOrNothing(cap, s, e.layer, e.time, e.payload);
    }
  }

  lemma AppendIsFlushOrNothing(cap: nat, s: L.State, layer: nat, time: U64, payload: seq<Byte>)
    requires L.WellFormed(s)
    ensures var s' := L.Append(cap, s, layer, time, payload, L.HEALTHY).0;
            s' == (if L.FlushesNow(s, layer, |payload|) then L.Flush(s, L.HEALTHY).0 else s).(bufs := s'.bufs)
    ensures L.FlushesNow(s, layer, |payload|) ==> !AllEmpty(s.bufs)
  {
    if L.FlushesNow(s, layer, |payload|) {
      AutoFlushHasData(s, layer, |payload|);
    }
  }

  lemma RingStep(cap: nat, d: L.Disk, s: L.State, ops: seq<L.Op>, e: Event)
    requires DataOk(d) && L.WellFormed(s) && RingState(d, s, ops) && Quiet([e]) && EventOk(e)
    ensures RingState(d, Step(cap, s, e), ops + EventOps(s, e))
  {
    EventIsFlushOrNothing(cap, s, e);
    if EventOps(s, e) != [] {
      RingFlush(d, s, ops);
      RingIgnoresBuffers(d, L.Flush(s, L.HEALTHY).0, ops + EventOps(s, e), Step(cap, s, e).bufs);
    } else {
      EmptyIsNeutral(ops);
      RingIgnoresBuffers(d, s, ops, Step(cap, s, e).bufs);
    }
  }

  lemma MountCursor(d: L.Disk)
    requires DataOk(d)
    ensures CursorAt(d, L.Mount(d), 0)
  {
    var r := L.MountBlock(d);
    MountRecovery(d);
    LaneOfBlock(r, 0, r);
    forall b | InData(b) ensures L.Mount(d).status[b].invalid <==> L.UsedBlock(d[b]) && !Reached(r, 0, b) {
      assert L.MountStatus(d, BLOCK_COUNT)[b] == L.MountedStatus(d[b]);
    }
  }

  lemma MountWindow(d: L.Disk)
    requires DataOk(d)
    ensures LogOk(L.MountBlock(d), []) && Window(d, d, [])
  {
    MountRecovery(d);
  }

  lemma RingMount(d: L.Disk)
    requires DataOk(d)
    ensures RingState(d, L.Mount(d), [])
  {
    MountCursor(d);
    MountWindow(d);
  }

  /** Ring-log refinement: after the mount of any chip that is in order, the flash is exactly the
      sliding window over the flushes of the session on top of the old chip; flush m is at block
      1 + (r - 1 + m/64) % 1023, page m % 64, where r is the block the mount chose. */
  lemma {:induction false} RingRun(cap: nat, d: L.Disk, es: seq<Event>)
    requires DataOk(d) && Quiet(es) && EventsOk(es)
    ensures RingState(d, Run(cap, L.Mount(d), es), RunOps(cap, L.Mount(d), es))
  {
    if es == [] {
      RingMount(d);
    } else {
      var before, e := es[..|es| - 1], es[|es| - 1];
      RingRun(cap, d, before);
      RingStep(cap, d, Run(cap, L.Mount(d), before), RunOps(cap, L.Mount(d), before), e);
    }
  }

  /** What slot of flush `m` holds after all flushes of the log: its page while its row is among the
      last 1023, else the page of a later flush, or nothing when that row has only erased it yet. */
  predicate SlotSlides(r: nat, now: L.Disk, log: seq<L.Op>, m: nat)
    requires L.DiskShape(now) && LogOk(r, log) && InData(BlockAt(r, m))
  {
    var slot := now[BlockAt(r, m)][PageOf(m)];
    m < |log| ==>
      if m / PAGE_COUNT >= (|log| - 1) / PAGE_COUNT - (DATA_BLOCKS - 1) then slot == Padded(log[m].data)
      else
        var later := Owner(|log|, LaneOf(m), PageOf(m));
        && m < later && later % (PAGE_COUNT * DATA_BLOCKS) == m % (PAGE_COUNT * DATA_BLOCKS)
        && slot == if later < |log| then Padded(log[later].data) else BlankPage()
  }

  lemma LaterOwner(n: nat, m: nat)
    requires m < n && m / PAGE_COUNT < (n - 1) / PAGE_COUNT - (DATA_BLOCKS - 1)
    ensures var later := Owner(n, LaneOf(m), PageOf(m));
            m < later && later % (PAGE_COUNT * DATA_BLOCKS) == m % (PAGE_COUNT * DATA_BLOCKS)
  {
    IntactIff(n, m);
    var row, j := (n - 1) / PAGE_COUNT, LaneOf(m);
    assert row - j == (row - j) / DATA_BLOCKS * DATA_BLOCKS + (row - j) % DATA_BLOCKS;
    SameSlot(OwnerRow(n, j), (row - j) / DATA_BLOCKS, m / PAGE_COUNT, PageOf(m));
  }

  lemma RingShift(x: int, h: int)
    ensures (x + h * (PAGE_COUNT * DATA_BLOCKS)) % (PAGE_COUNT * DATA_BLOCKS) == x % (PAGE_COUNT * DATA_BLOCKS)
  {
  }

  lemma SameSlot(row: int, k: int, q: nat, p: nat)
    requires row == k * DATA_BLOCKS + q % DATA_BLOCKS && p < PAGE_COUNT
    ensures (PAGE_COUNT * row + p) % (PAGE_COUNT * DATA_BLOCKS) == (PAGE_COUNT * q + p) % (PAGE_COUNT * DATA_BLOCKS)
  {
    var x := PAGE_COUNT * (q % DATA_BLOCKS) + p;
    assert q == q / DATA_BLOCKS * DATA_BLOCKS + q % DATA_BLOCKS;
    RingShift(x, k);
    RingShift(x, q / DATA_BLOCKS);
  }

  lemma WindowSlides(d: L.Disk, now: L.Disk, log: seq<L.Op>, m: nat)
    requires L.DiskShape(d) && L.DiskShape(now) && LogOk(L.MountBlock(d), log) && Window(d, now, log)
    ensures InData(BlockAt(L.MountBlock(d), m)) && SlotSlides(L.MountBlock(d), now, log, m)
  {
    var r := L.MountBlock(d);
    var b := BlockAt(r, m);
    LaneOfBlock(r, m, b);
    if m < |log| {
      assert now[b][PageOf(m)] == Expected(d, r, log, b, PageOf(m));
      IntactIff(|log|, m);
      OwnedIff(|log|, LaneOf(m));
      if m / PAGE_COUNT < (|log| - 1) / PAGE_COUNT - (DATA_BLOCKS - 1) {
        LaterOwner(|log|, m);
      }
    }
  }

  /** The window, flush by flush, over every session on every chip in order. */
  lemma SlidingWindow(cap: nat, d: L.Disk, es: seq<Event>, m: nat)
    requires DataOk(d) && Quiet(es) && EventsOk(es)
    ensures var r, log := L.MountBlock(d), Programs(RunOps(cap, L.Mount(d), es));
            && LogOk(r, log)
            && InData(BlockAt(r, m))
            && SlotSlides(r, Run(cap, L.Mount(d), es).disk, log, m)
  {
    RingRun(cap, d, es);
    WindowSlides(d, Run(cap, L.Mount(d), es).disk, Programs(RunOps(cap, L.Mount(d), es)), m);
  }

  lemma SlotNumbers(r: nat, m: nat)
    requires InData(r)
    ensures 1 <= r < 1024 && 1 <= 1 + (r - 1 + m / 64) % 1023 < 1024
    ensures BlockAt(r, m) == 1 + (r - 1 + m / 64) % 1023 && PageOf(m) == m % 64
  {
  }

  /** Flush m landed at block b, page p and is still there if its row is among the last 1023. */
  predicate LandedAt(now: L.Disk, log: seq<L.Op>, m: nat, b: nat, p: nat)
    requires L.DiskShape(now) && m < |log| && b < 1024 && p < 64
  {
    && log[m].Program? && log[m].block == b && log[m].page == p && |log[m].data| <= 2000
    && (m / 64 >= (|log| - 1) / 64 - 1022 ==> now[b][p] == Padded(log[m].data))
  }

  lemma SlotLanded(r: nat, now: L.Disk, log: seq<L.Op>, m: nat, b: nat, p: nat)
    requires L.DiskShape(now) && LogOk(r, log) && InData(BlockAt(r, m)) && m < |log| && SlotSlides(r, now, log, m)
    requires b == BlockAt(r, m) && p == PageOf(m) && p < 64
    ensures LandedAt(now, log, m, b, p)
  {
  }

  /** The same in numbers, for flush m of a session of n flushes that mounted at block r: its page is
      programmed at block 1 + (r - 1 + m / 64) % 1023, page m % 64, and is found there as long as
      m / 64 >= (n - 1) / 64 - 1022. */
  lemma FlushLands(cap: nat, d: L.Disk, es: seq<Event>, m: nat, r: nat, b: nat, p: nat)
    requires DataOk(d) && Quiet(es) && EventsOk(es) && m < |Programs(RunOps(cap, L.Mount(d), es))|
    requires r == L.MountBlock(d) && b == 1 + (r - 1 + m / 64) % 1023 && p == m % 64
    ensures 1 <= r < 1024 && 1 <= b < 1024
    ensures LandedAt(Run(cap, L.Mount(d), es).disk, Programs(RunOps(cap, L.Mount(d), es)), m, b, p)
  {
    MountRecovery(d);
    SlotNumbers(r, m);
    SlidingWindow(cap, d, es, m);
    SlotLanded(r, Run(cap, L.Mount(d), es).disk, Programs(RunOps(cap, L.Mount(d), es)), m, b, p);
  }

  /** What the ring has not reached is as it was mounted. */
  lemma UnreachedUntouched(cap: nat, d: L.Disk, es: seq<Event>, b: nat)
    requires DataOk(d) && Quiet(es) && EventsOk(es) && InData(b)
    requires |Programs(RunOps(cap, L.Mount(d), es))| <= PAGE_COUNT * Lane(L.MountBlock(d), b)
    ensures Run(cap, L.Mount(d), es).disk[b] == d[b]
  {
    RingRun(cap, d, es);
    var now := Run(cap, L.Mount(d), es).disk;
    assert L.BlockShape(now[b]) && L.BlockShape(d[b]);
    forall p | 0 <= p < PAGE_COUNT ensures now[b][p] == d[b][p] {
      assert now[b][p] == Expected(d, L.MountBlock(d), Programs(RunOps(cap, L.Mount(d), es)), b, p);
    }
  }
}

/** Concrete runs: inputs on which the properties that are false of the code fail. */
module Witnesses {
  import opened Layout
  import opened CompressHeader
  import opened PageFormat
  import opened PageEncoder
  import opened Runs
  import opened EraseDiscipline
  import opened RingLog
  import opened Conservation
  import opened FlashReads
  import opened Capacity
  import opened MountRetention
  import opened Queries
  import opened BlockReports
  import L = LogFs

  // A temperature record, buffered and flushed at once.
  const SAMPLE: seq<Event> := [Event.Append(LAYER_TEMPERATURE, 0, [0, 0], L.HEALTHY), Event.Flush(L.HEALTHY)]

  /** A quiet run of n flushes. */
  function Flushes(n: nat): (es: seq<Event>)
    ensures Quiet(es) && EventsOk(es)
  {
    if n == 0 then [] else Flushes(n - 1) + SAMPLE
  }

  const SAMPLE_REC: Rec := Rec(0, [0, 0])

  lemma SampleAppend(cap: nat, s: L.State)
    requires L.WellFormed(s) && s.bufs == L.EmptyBufs() && cap >= 10
    ensures EventOps(s, SAMPLE[0]) == []
    ensures Step(cap, s, SAMPLE[0]).bufs == L.EmptyBufs()[LAYER_TEMPERATURE := [SAMPLE_REC]]
  {
    L.TotalOfEmpty(s.bufs, LAYER_MAX);
    assert s.bufs[LAYER_TEMPERATURE] + [SAMPLE_REC] == [SAMPLE_REC];
  }

  lemma SampleFlush(cap: nat, s: L.State)
    requires L.WellFormed(s) && s.bufs == L.EmptyBufs()[LAYER_TEMPERATURE := [SAMPLE_REC]]
    ensures |Programs(EventOps(s, SAMPLE[1]))| == 1
    ensures Step(cap, s, SAMPLE[1]).bufs == L.EmptyBufs()
  {
    assert s.bufs[LAYER_TEMPERATURE] != [];
    L.FlushWellFormed(s, L.HEALTHY);
    FlushTrace(s, []);
    EmptyIsNeutral(L.FlushOps(s, L.HEALTHY));
  }

  predicate HasFlushed(cap: nat, s: L.State, es: seq<Event>, n: nat)
    requires L.WellFormed(s) && EventsOk(es)
  {
    |Programs(RunOps(cap, s, es))| == n && Run(cap, s, es).bufs == L.EmptyBufs()
  }

  lemma FlushesStep(cap: nat, s: L.State, es: seq<Event>, n: nat)
    requires L.WellFormed(s) && EventsOk(es) && cap >= 10 && HasFlushed(cap, s, es, n)
    ensures EventsOk(es + SAMPLE) && HasFlushed(cap, s, es + SAMPLE, n + 1)
  {
    var s1 := Run(cap, s, es);
    SampleAppend(cap, s1);
    SampleFlush(cap, Step(cap, s1, SAMPLE[0]));
    RunTwoMore(cap, s, es, SAMPLE[0], SAMPLE[1]);
    ProgramsConcat(RunOps(cap, s, es), EventOps(Step(cap, s1, SAMPLE[0]), SAMPLE[1]));
    assert SAMPLE == [SAMPLE[0], SAMPLE[1]];
  }

  lemma FlushesCount(cap: nat, s: L.State, n: nat)
    requires L.WellFormed(s) && s.bufs == L.EmptyBufs() && cap >= 10
    ensures HasFlushed(cap, s, Flushes(n), n)
  {
    for k := 0 to n
      invariant HasFlushed(cap, s, Flushes(k), k)
    {
      FlushesStep(cap, s, Flushes(k), k);
    }
  }

  lemma RunTwoMore(cap: nat, s: L.State, es: seq<Event>, a: Event, b: Event)
    requires L.WellFormed(s) && EventsOk(es) && EventOk(a) && EventOk(b)
    requires EventOps(Run(cap, s, es), a) == []
    ensures EventsOk(es + [a, b])
    ensures Run(cap, s, es + [a, b]) == Step(cap, Step(cap, Run(cap, s, es), a), b)
    ensures RunOps(cap, s, es + [a, b]) == RunOps(cap, s, es) + EventOps(Step(cap, Run(cap, s, es), a), b)
  {
    RunOneMore(cap, s, es, a);
    RunOneMore(cap, s, es + [a], b);
    EmptyIsNeutral(RunOps(cap, s, es));
    assert es + [a] + [b] == es + [a, b];
  }

  lemma FlushIsThere(cap: nat, d: L.Disk, es: seq<Event>, m: nat)
    requires DataOk(d) && Quiet(es) && EventsOk(es)
    requires First(|Programs(RunOps(cap, L.Mount(d), es))|) <= m < |Programs(RunOps(cap, L.Mount(d), es))|
    ensures var r, log := L.MountBlock(d), Programs(RunOps(cap, L.Mount(d), es));
            && InData(r) && InData(BlockAt(r, m)) && log[m].Program? && |log[m].data| <= PAGE_SIZE
            && Run(cap, L.Mount(d), es).disk[BlockAt(r, m)][PageOf(m)] == Padded(log[m].data)
  {
    SlidingWindow(cap, d, es, m);
    IntactIff(|Programs(RunOps(cap, L.Mount(d), es))|, m);
  }

  lemma FirstSlots(r: nat, n: nat, p: nat)
    requires InData(r) && p < PAGE_COUNT && n <= PAGE_COUNT * DATA_BLOCKS
    ensures BlockAt(r, p) == r && PageOf(p) == p && First(n) == 0
  {
    LaneZeroIff(r, r);
    LaneOfBlock(r, p, r);
  }

  /** The pages of the first 64 flushes are what the chosen block holds. */
  predicate FirstRowIn(r: nat, now: L.Disk, log: seq<L.Op>)
    requires L.DiskShape(now)
  {
    && InData(r) && |log| >= PAGE_COUNT
    && forall p | 0 <= p < PAGE_COUNT ::
         log[p].Program? && |log[p].data| <= PAGE_SIZE && now[r][p] == Padded(log[p].data)
  }

  /** They stay there for the whole first pass over the ring. */
  lemma FirstRowStays(cap: nat, d: L.Disk, es: seq<Event>)
    requires DataOk(d) && Quiet(es) && EventsOk(es)
    requires PAGE_COUNT <= |Programs(RunOps(cap, L.Mount(d), es))| <= PAGE_COUNT * DATA_BLOCKS
    ensures FirstRowIn(L.MountBlock(d), Run(cap, L.Mount(d), es).disk, Programs(RunOps(cap, L.Mount(d), es)))
  {
    var r, now, log := L.MountBlock(d), Run(cap, L.Mount(d), es).disk, Programs(RunOps(cap, L.Mount(d), es));
    RingRun(cap, d, es);
    forall p | 0 <= p < PAGE_COUNT
      ensures log[p].Program? && |log[p].data| <= PAGE_SIZE && now[r][p] == Padded(log[p].data)
    {
      FirstSlots(r, |log|, p);
      FlushIsThere(cap, d, es, p);
    }
  }

  lemma CursorBlockReports(cap: nat, d: L.Disk, es: seq<Event>, layer: nat, n: nat)
    requires DataOk(d) && Quiet(es) && EventsOk(es) && n == |Programs(RunOps(cap, L.Mount(d), es))|
    requires n > 0 && n % PAGE_COUNT == 0
    ensures var b, s := BlockAt(L.Mount(d).block, n), Run(cap, L.Mount(d), es);
            && InData(b) && BlockReadable(s.disk, b)
            && BlockRanges(s.disk, s.status[b].invalid, layer, b, PAGE_COUNT) == Ranges(s.disk, layer, b, PAGE_COUNT)
  {
    LaneOfBlock(L.Mount(d).block, n, L.Mount(d).block);
    SessionReports(cap, d, es, layer, BlockAt(L.Mount(d).block, n));
  }

  lemma FullTurn(r: nat, n: nat)
    requires InData(r) && n == PAGE_COUNT * DATA_BLOCKS
    ensures BlockAt(r, n) == r && n > 0 && n % PAGE_COUNT == 0
  {
    LaneZeroIff(r, r);
    LaneOfBlock(r, n, r);
  }

  /** Once the ring has turned, a session reports a block it wrote itself: after 65472 flushes on any
      chip in order the block the mount chose reports the pages of flushes 0 to 63, without a
      remount. */
  lemma RingTurnReportsAgain(cap: nat, d: L.Disk, es: seq<Event>, layer: nat)
    requires DataOk(d) && Quiet(es) && EventsOk(es)
    requires |Programs(RunOps(cap, L.Mount(d), es))| == PAGE_COUNT * DATA_BLOCKS
    ensures var r, s := L.Mount(d).block, Run(cap, L.Mount(d), es);
            && BlockReadable(s.disk, r)
            && BlockRanges(s.disk, s.status[r].invalid, layer, r, PAGE_COUNT) == Ranges(s.disk, layer, r, PAGE_COUNT)
            && FirstRowIn(r, s.disk, Programs(RunOps(cap, L.Mount(d), es)))
  {
    var n := |Programs(RunOps(cap, L.Mount(d), es))|;
    FirstRowStays(cap, d, es);
    FullTurn(L.Mount(d).block, n);
    CursorBlockReports(cap, d, es, layer, n);
  }

  /** Such a session exists on every chip. */
  lemma FullTurnHappens(cap: nat, d: L.Disk)
    requires DataOk(d) && cap >= 10
    ensures exists es :: Quiet(es) && EventsOk(es) && HasFlushed(cap, L.Mount(d), es, PAGE_COUNT * DATA_BLOCKS)
  {
    FlushesCount(cap, L.Mount(d), PAGE_COUNT * DATA_BLOCKS);
  }

  // ----- a refused erase

  /** A chip on which every page holds the image of `bufs`. */
  function FullChip(bufs: seq<seq<Rec>>): L.Disk
    requires Fits(bufs)
  {
    Repeat(Repeat(Padded(PageImage(bufs)), PAGE_COUNT), BLOCK_COUNT)
  }

  lemma FullChipOk(bufs: seq<seq<Rec>>)
    requires Fits(bufs) && !AllEmpty(bufs)
    ensures DataOk(FullChip(bufs)) && !HasUnused(FullChip(bufs))
  {
    FlushedPageIsUsed(bufs);
  }

  /** The refused erase of a full chip, whatever it holds: the flush fails, and the next one programs
      page 0 over what the chip still holds. */
  lemma RefusedEraseHappens(d: L.Disk, bufs: seq<seq<Rec>>)
    requires DataOk(d) && !HasUnused(d) && Fits(bufs) && !AllEmpty(bufs)
    ensures var s, drv := L.Mount(d).(bufs := bufs), L.Driver(false, true);
            && Inv(s) && EraseRefused(s, drv) && L.Flush(s, drv).1 == ERR
            && var later := L.Flush(s, drv).0.(bufs := bufs);
            && L.WellFormed(later)
            && L.FlushOps(later, L.HEALTHY) == [L.Program(s.block, 0, PageImage(bufs))]
            && !Blank(later.disk[s.block][0])
  {
    var s := L.Mount(d).(bufs := bufs);
    MountGivesInv(d);
    InvIgnoresBuffers(L.Mount(d), bufs);
    ChosenBlockUsedIff(d);
    RefusedEraseOverwrites(s, L.Driver(false, true), bufs);
  }

  // ----- records that come back

  /** Only layer 0 is buffered. */
  function Ants(recs: seq<Rec>): seq<seq<Rec>>
  {
    L.EmptyBufs()[0 := recs]
  }

  lemma AntsFit(one: Rec, two: Rec)
    requires |one.payload| == |two.payload| == ANTP_RECORD_SIZE
    ensures Fits(Ants([one])) && TotalLength(Ants([one]), LAYER_MAX) == 34
    ensures Fits(Ants([one, two])) && TotalLength(Ants([one, two]), LAYER_MAX) == 68
  {
    L.EmptyBufsFit();
    L.TotalLengthGrows(L.EmptyBufs(), 0, one, LAYER_MAX);
    assert L.EmptyBufs()[0] + [one] == [one];
    L.TotalLengthGrows(Ants([one]), 0, two, LAYER_MAX);
    assert Ants([one])[0] + [two] == [one, two];
    assert Ants([one])[0 := [one, two]] == Ants([one, two]);
  }

  lemma {:induction false} JoinFirst(layers: seq<seq<Chunk>>, n: nat)
    requires 0 < n <= |layers| && forall l | 0 < l < n :: layers[l] == []
    ensures Join(layers, n) == layers[0]
  {
    if n == 1 {
      assert Join(layers, 0) == [];
    } else {
      JoinFirst(layers, n - 1);
      EmptyIsNeutral(layers[0]);
    }
  }

  lemma AntsImage(recs: seq<Rec>)
    requires Fits(Ants(recs))
    ensures AllSound(AntChunks(0, recs)) && PageImage(Ants(recs)) == Serialize(AntChunks(0, recs))
  {
    ChunksOfSound(Ants(recs), LAYER_MAX);
    assert LayersOf(Ants(recs))[0] == AntChunks(0, recs);
    JoinFirst(LayersOf(Ants(recs)), LAYER_MAX);
  }

  function AntChunk(rec: Rec): Chunk { Chunk(AntHeader(0, rec), rec.payload) }

  lemma AntChunksOfTwo(one: Rec, two: Rec)
    ensures AntChunks(0, [one]) == [AntChunk(one)] && AntChunks(0, [one, two]) == [AntChunk(one), AntChunk(two)]
  {
    assert [one][..0] == [];
    assert [one, two][..1] == [one];
  }

  /** Behind the first of two records the page goes on with the second one, header and all. */
  lemma SecondRecordLeft(one: Rec, two: Rec)
    requires |one.payload| == |two.payload| == ANTP_RECORD_SIZE
    ensures Fits(Ants([one, two])) && Fits(Ants([two]))
    ensures Padded(PageImage(Ants([one, two])))[34..] == PageImage(Ants([two])) + Repeat<Byte>(0xFF, PAGE_SIZE - 68)
  {
    AntsFit(one, two);
    AntsFit(two, two);
    AntsImage([one, two]);
    AntsImage([two]);
    AntChunksOfTwo(one, two);
    AntChunksOfTwo(two, two);
    assert [AntChunk(one)] + [AntChunk(two)] == [AntChunk(one), AntChunk(two)];
    SerializeConcat([AntChunk(one)], [AntChunk(two)]);
    AntsImage([one]);
    var first, second, blank := PageImage(Ants([one])), PageImage(Ants([two])), Repeat<Byte>(0xFF, PAGE_SIZE - 68);
    AntsFit(one, one);
    DropFirst(first, second, blank);
  }

  lemma DropFirst(a: seq<Byte>, b: seq<Byte>, c: seq<Byte>)
    ensures (a + b + c)[|a|..] == b + c
  {
    Associative(a, b, c);
  }

  /** A page of two records, programmed over with one new record: mxfs_read returns the new record and
      the second old one. */
  lemma StaleRecordRead(s: L.State, one: Rec, two: Rec, added: Rec)
    requires |one.payload| == |two.payload| == |added.payload| == ANTP_RECORD_SIZE
    requires L.WellFormed(s) && s.bufs == Ants([added]) && Fits(Ants([one, two]))
    requires TargetBlock(s)[s.page] == Padded(PageImage(Ants([one, two])))
    ensures LayerBytes(PageAfter(s, L.HEALTHY), 0) == added.payload + two.payload
  {
    AntsFit(added, added);
    assert s.bufs[0] != [];
    SecondRecordLeft(one, two);
    var blank := Repeat<Byte>(0xFF, PAGE_SIZE - 68);
    assert blank[0] == 0xFF;
    ReadOverImage(Ants([two]), blank, 0, PAGE_SIZE);
    FlushedPageReads(s, L.HEALTHY, 0);
    EmptyIsNeutral(two.payload);
    PayloadsOfOne(two);
    PayloadsOfOne(added);
  }

  lemma PayloadsOfOne(rec: Rec)
    ensures Payloads([rec]) == rec.payload
  {
    assert [rec][..0] == [];
    EmptyIsNeutral(rec.payload);
  }

  /** After a refused erase records come back from the overwritten page: on a chip full of pages of two
      records, the log counts nothing as lost, and the flash returns an old record behind the new one. */
  lemma StaleRecordComesBack(one: Rec, two: Rec, added: Rec)
    requires |one.payload| == |two.payload| == |added.payload| == ANTP_RECORD_SIZE
    ensures Fits(Ants([one, two])) && Fits(Ants([added]))
    ensures var s := L.Mount(FullChip(Ants([one, two]))).(bufs := Ants([added]));
            && Inv(s)
            && var later := L.Flush(s, L.Driver(false, true)).0.(bufs := Ants([added]));
            && L.WellFormed(later) && LosesNothing(later, L.HEALTHY)
            && LayerBytes(PageAfter(later, L.HEALTHY), 0) == added.payload + two.payload
  {
    AntsFit(one, two);
    AntsFit(added, added);
    var was, bufs := Ants([one, two]), Ants([added]);
    assert was[0] != [] && bufs[0] != [];
    FullChipOk(was);
    RefusedEraseHappens(FullChip(was), bufs);
    var s := L.Mount(FullChip(was)).(bufs := bufs);
    RefusedKeepsTarget(s, bufs);
    var later := L.Flush(s, L.Driver(false, true)).0.(bufs := bufs);
    FlushLosesIff(later, L.HEALTHY);
    StaleRecordRead(later, one, two, added);
  }

  lemma RefusedKeepsTarget(s: L.State, bufs: seq<seq<Rec>>)
    requires L.WellFormed(s) && !AllEmpty(s.bufs) && Fits(bufs) && s.status[s.block].invalid
    ensures var later := L.Flush(s, L.Driver(false, true)).0.(bufs := bufs);
            L.WellFormed(later) && later.page == s.page && TargetBlock(later) == s.disk[s.block]
  {
    assert L.ApplyAll(s.disk, []) == s.disk;
  }

  /** A header with MAGIC of a kind no layer uses. */
  predicate Strange(h: Header)
  {
    FieldsFit(h) && h.magic == MAGIC && h.kind > LAYER_CONFIG
  }

  /** MAGIC in the left-over bytes alone is no loss: an old payload may carry it in front of a header no
      layer uses. Programmed over with one temperature record, the page reads back exactly. */
  lemma MagicInPayloadIsHarmless(s: L.State, x: Byte, y: Byte, strange: Header, time: U64)
    requires Strange(strange) && L.WellFormed(s) && s.bufs == Temperatures(1)
    requires Fits(Ants([Rec(time, [x, y] + Pack(strange))]))
    requires TargetBlock(s)[s.page] == Padded(PageImage(Ants([Rec(time, [x, y] + Pack(strange))])))
    ensures HasMagic(Leftover(s)) && ReadsBack(PageAfter(s, L.HEALTHY), s.bufs)
  {
    var was := Rec(time, [x, y] + Pack(strange));
    var blank := Repeat<Byte>(0xFF, PAGE_SIZE - 34);
    TemperaturesLength(1);
    AntsFit(was, was);
    AntsImage([was]);
    AntChunksOfTwo(was, was);
    SerializeOne(AntChunk(was));
    DropRecordStart(Pack(AntHeader(0, was)), x, y, Pack(strange), blank);
    assert s.bufs[LAYER_TEMPERATURE] != [];
    StrangeIsSilent(strange, blank);
    FlushReadsBackIff(s, L.HEALTHY);
  }

  lemma DropRecordStart(header: seq<Byte>, x: Byte, y: Byte, more: seq<Byte>, blank: seq<Byte>)
    requires |header| == HEADER_SIZE
    ensures (header + ([x, y] + more) + blank)[18..] == more + blank
  {
  }

  lemma StrangeHeader(strange: Header, blank: seq<Byte>)
    requires Strange(strange)
    ensures var rest := Pack(strange) + blank;
            HasMagic(rest) && Unpack(rest).kind > LAYER_CONFIG && rest[HEADER_SIZE..] == blank
  {
    var rest := Pack(strange) + blank;
    UnpackOfPack(strange, blank);
    assert WordAt(rest, 0) == Unpack(rest).magic;
  }

  lemma StrangeIsSilent(strange: Header, blank: seq<Byte>)
    requires Strange(strange) && |blank| >= 4 && blank[0] == 0xFF
    ensures var rest := Pack(strange) + blank; HasMagic(rest) && ReadInBounds(rest) && Silent(rest)
  {
    StrangeHeader(strange, blank);
    NoMagicInBlank(blank);
    SteppedOver(Pack(strange) + blank);
  }

  lemma NoMagicInBlank(blank: seq<Byte>)
    requires |blank| >= 4 && blank[0] == 0xFF
    ensures !HasMagic(blank)
  {
  }

  lemma SteppedOver(rest: seq<Byte>)
    requires |rest| >= HEADER_SIZE + 4 && HasMagic(rest) && Unpack(rest).kind > LAYER_CONFIG
    requires !HasMagic(rest[HEADER_SIZE..])
    ensures ReadInBounds(rest) && Silent(rest)
  {
  }

  // ----- a full temperature buffer

  /** Only temperature is buffered, n times the sample record. */
  function Temperatures(n: nat): seq<seq<Rec>>
  {
    L.EmptyBufs()[LAYER_TEMPERATURE := Repeat(SAMPLE_REC, n)]
  }

  lemma TemperaturesLength(n: nat)
    ensures TotalLength(Temperatures(n), LAYER_MAX) == LayerLength(LAYER_TEMPERATURE, n)
  {
    L.TotalOfEmpty(Temperatures(n), LAYER_TEMPERATURE);
  }

  lemma OneMoreTemperature(s: L.State, n: nat)
    requires L.WellFormed(s) && s.bufs == Temperatures(n) && n < 819
    ensures EventOps(s, SAMPLE[0]) == []
    ensures Step(8192, s, SAMPLE[0]).bufs == Temperatures(n + 1)
  {
    TemperaturesLength(n);
    assert Repeat(SAMPLE_REC, n) + [SAMPLE_REC] == Repeat(SAMPLE_REC, n + 1);
  }

  /** The same temperature record appended n times. */
  function Readings(n: nat): (es: seq<Event>)
    ensures |es| == n && EventsOk(es)
  {
    Repeat(SAMPLE[0], n)
  }

  lemma OneMoreReading(s: L.State, es: seq<Event>, k: nat)
    requires L.WellFormed(s) && EventsOk(es) && k < 819 && Run(8192, s, es).bufs == Temperatures(k)
    ensures EventsOk(es + [SAMPLE[0]]) && Run(8192, s, es + [SAMPLE[0]]).bufs == Temperatures(k + 1)
  {
    RunOneMore(8192, s, es, SAMPLE[0]);
    OneMoreTemperature(Run(8192, s, es), k);
  }

  lemma ReadingsGrow(k: nat)
    ensures Readings(k + 1) == Readings(k) + [SAMPLE[0]]
  {
  }

  lemma ReadingsHeld(d: L.Disk, n: nat)
    requires L.DiskShape(d) && n <= 819
    ensures Run(8192, L.Mount(d), Readings(n)).bufs == Temperatures(n)
  {
    assert L.Mount(d).bufs == Temperatures(0);
    for k := 0 to n
      invariant Run(8192, L.Mount(d), Readings(k)).bufs == Temperatures(k)
    {
      OneMoreReading(L.Mount(d), Readings(k), k);
      ReadingsGrow(k);
    }
  }

  lemma FullOfReadings(s: L.State, n: nat)
    requires L.WellFormed(s) && s.bufs == Temperatures(n) && n == 819
    ensures L.Append(8192, s, LAYER_TEMPERATURE, 0, [0, 0], L.HEALTHY).1 == NEED_MORE_BUFFER
  {
    TemperaturesLength(n);
    Rp2040FullIff(s, LAYER_TEMPERATURE, 0, [0, 0], L.HEALTHY);
  }

  /** 819 temperature records fill the buffer of the RP2040 build, and the next one is refused. */
  lemma Rp2040BufferFills(d: L.Disk, n: nat)
    requires L.DiskShape(d) && n == 819
    ensures var s := Run(8192, L.Mount(d), Readings(n));
            && s.bufs == Temperatures(n)
            && L.Append(8192, s, LAYER_TEMPERATURE, 0, [0, 0], L.HEALTHY).1 == NEED_MORE_BUFFER
  {
    ReadingsHeld(d, n);
    FullOfReadings(Run(8192, L.Mount(d), Readings(n)), n);
  }
}

# MXFS in Dafny

MXFS is a log-structured file system for small sensor nodes. A low-power child buffers timestamped
records in six layers, writes them page by page to a NAND chip used as a ring, finds its place again
after power loss, and shares the chip with a parent under a hardware bus arbiter. This project models
three parts of it and proves what they promise:

* the child's file system (`sw/child`, the build without `__LINUX__`): the page format and its two
  parsers, append, flush, mount, the index and the queries, on the fake flash driver;
* the bus arbiter (`hw`): the two clock-domain state machines, the selector, and their composition
  under every interleaving of the two clocks;
* the parent's polled NAND machines (`sw/parent`): write, erase and read.

Each of them exists twice. Functions on values say what one call does; classes with the source's own
fields, arrays and loops do it step by step and are proved to compute those functions. The theorems
are about the functions, over all inputs, all runs and all interleavings.

| file | content |
|---|---|
| `Layout.dfy`, `CompressHeader.dfy` | constants, little-endian words, the packed 16-byte header |
| `PageFormat.dfy` | chunks, both parsers as walks, agreement of the parsers |
| `WireFormat.dfy` | the format bit by bit: what each header bit means, configuration text, the headers of a flushed page |
| `PageEncoder.dfy`, `PageTimes.dfy` | the page a flush writes, its round trip, the times read back from it |
| `LogFs.dfy`, `Runs.dfy` | append, flush and mount on values; runs with power cuts |
| `EraseDiscipline.dfy` | erase before program over all runs, mount recovery |
| `RingLog.dfy`, `MountRetention.dfy` | a session: the flash as a sliding window over the log, what a mount keeps |
| `Conservation.dfy`, `Persistence.dfy` | every accepted byte accounted for, even wear, what stays until erased |
| `FlashReads.dfy` | what a flushed page reads back as, whatever it was programmed over |
| `IndexQuery.dfy` | index agreement |
| `AppendDecision.dfy`, `Capacity.dfy` | when append flushes or refuses, page density and buffer limits |
| `FakeFlash.dfy`, `Instance.dfy`, `Queries.dfy` | the imperative driver, instance and read side |
| `BlockReports.dfy` | which blocks report time ranges, and which ranges |
| `Witnesses.dfy` | concrete runs on which the properties that are false of the code fail |
| `DomainFsm.dfy`, `Selector.dfy`, `BusArbiter.dfy` | the hardware |
| `SpiNand.dfy` | the parent's machines |

## What the proofs found

* **Refused erase.** `mxfs_flush` clears the "used" flag before the driver answers. A flush keeps the
  erase-before-program discipline iff no due erase is refused over data; otherwise the next flush
  programs page 0 over what is still there (`FlushKeepsInvIff`, `RefusedEraseOverwrites`; it happens on
  every full chip, `RefusedEraseHappens`). A page programmed over reads back exactly iff the bytes behind
  the new image form no chain of headers that copies anything (`FlushReadsBackIff`); otherwise `mxfs_read`
  returns more or leaves the page, as when an old record comes back behind the new one
  (`StaleRecordComesBack`). MAGIC there decides alone where the bytes begin
  at an old header (`FlushReadsBackIffNoMagic`), not where an old payload carries it
  (`MagicInPayloadIsHarmless`).
* **Failed flush.** The buffers are drained before the driver is asked. In the log of programmed pages a
  flush loses nothing iff there is nothing to write or the driver carries out the program and the erase,
  if one is due (`FlushLosesIff`); on a chip in order, with no erase refused over data, the flash agrees
  with the log (`KeptOnFlashIff`). `mxfs_append` ignores the result of its automatic flush: it reports
  success whether or not what was buffered is lost (`AppendHidesLoss`).
* **Erasing the block being filled.** `mxfs_erase` keeps the discipline iff the block is not the
  current one or its page cursor is 0; otherwise a later mount takes the block for unused although it
  holds pages (`UserEraseKeepsInvIff`, `EraseOfCurrentBlockHidesPages`).
* **Full chip.** The first flush after a mount destroys data iff the mount found no unused block, and
  the block it erases is the newest one (`FullChipLosesNewest`): after a session that filled the ring, the
  block begun last (`RemountErasesLastBegun`).
* **Single temperature record.** Its last time is taken from an earlier layer; the reported end is
  right iff the record's time is below 2^32 ms and the left-over time agrees with it modulo 2^32
  (`SingleTemperature`).
* **32-bit times.** Gyro, accelerometer and temperature starts are the low 32 bits of the first time
  (`SensorTimes`); start and end are within their bound iff that time fits and the average gap is at most
  65535 ms or does not wrap below it (`SensorTimesBoundIff`). The last ANTP
  time of a page is exact iff its seconds fit 32 bits. The first one is exact iff its seconds fit and, if it is 0, all times of the layer on the page are multiples of 2^32
  seconds: the parser takes 0 for "not set yet" and reports the first time that is not
  (`AntpTimesSurvive`).
* **Silent blocks.** `mxfs_timerange_by_block` reports a block only under its "used" flag. After n flushes
  of a session that mounted a chip with the cursor at block r, block b reports iff the cursor has just
  entered it (n > 0, n a multiple of 64, b = 1 + (r - 1 + n/64) % 1023), or the mount found it used and the
  ring has not reached it (n at most 64 times its distance from r); otherwise it reports nothing
  (`SessionReports`). So a block is silent from the flush that begins it until the ring returns to it
  (`FlushSilencesBlock`, `RingTurnReportsAgain`, which every chip can reach: `FullTurnHappens`) or the chip
  is mounted again (`RemountMarksUsed`).
* **RP2040 buffer.** With 8192-byte buffers a temperature record is refused exactly when 819 are
  buffered and no automatic flush is due (`Rp2040FullIff`), which 819 appends reach
  (`Rp2040BufferFills`).
* **Reset of the arbiter.** Domain outputs have no reset. Q stays high for the first 402 slow clocks
  iff the slow line is low as reset is released, which one slow edge during reset ensures
  (`NoEarlyGrantIff`, `EdgeInResetLowersLine`).
* **Grant without a software bit.** READY_1 drives a domain's line high by itself. With the outputs
  lowered in reset and the fast bit held at 0 the Child owns the bus four fast edges after any moment between 403 and 603 slow clocks at which
  the fast line is low, and at no other time (`GrantWithoutFastBitIff`, `GrantAt403`).

Where comments disagree with the code, the code is followed: README.md:155 and README.md:189 speak of
100 and 200 cycles per stage, the counters take 101 and 201 clocks; the type comment at
sw/child/inc/mxfs_def.h:152-155 counts layers from 1, the code from 0.

## Modelling choices

* Bytes are integers below 256, 32- and 64-bit values carry their range in the type, and every
  truncation of the source is written out. The 16-bit counters of the source stay below 17000 (a page
  holds at most 2000 encoded bytes, a layer at most its buffer), so they are plain naturals.
* A page of the chip is a value of 2048 bytes in a mutable array of blocks; page program and block
  erase are atomic. `ghost var recs` names the records the byte buffers hold.
* The driver's answers are parameters (`Driver`). A power cut is a prefix of the driver calls of a
  flush followed by a mount. `Careful` says which events keep the discipline; program failures and
  power cuts always do.
* Clock edges are explicit: `Fast`, `Slow` or `Both`. All right-hand sides read the registers as they
  were before the edge. Power-up values are arbitrary.

## Model

| member | source | states |
|---|---|---|
| CompressHeader.UnpackOfPack | sw/child/inc/mxfs_def.h:148-174 | a packed header is read back field by field, whatever follows it |
| CompressHeader.PackOfUnpack | sw/child/inc/mxfs_def.h:148-174 | every 16 bytes are the packing of what they decode to |
| WireFormat.HeaderOnBytes | sw/child/inc/mxfs_def.h:148-174 | every field of a header, written out as bits of its 16 bytes |
| WireFormat.MagicOnBytes | sw/child/src/mxfs_read.cc:50-55 | a header is taken for one iff it begins with DE C0 AD DE |
| WireFormat.SensorReadOnBytes | sw/child/src/mxfs_read.cc:57-109 | one sensor header of mxfs_read: 18 bytes for kinds 0 to 2 whatever their length, 6 or 2 per counted record for 3 to 5 |
| WireFormat.OtherReadOnBytes | sw/child/src/mxfs_read.cc:56-122 | kinds above 6 are stepped over by their header alone |
| WireFormat.NoReadOnBytes | sw/child/src/mxfs_read.cc:50-55 | without these four bytes mxfs_read is over |
| WireFormat.ConfigText | sw/child/src/mxfs_read.cc:110-121 | behind a header of kind 6, layer 6 reads the first min(length, bufferLen) bytes of the text and stops; other layers stop with nothing |
| WireFormat.TimesOnBytes | sw/child/src/mxfs_timerange.cc:99-146 | one header of the second parser: 64-bit times for kinds 0 to 2, 32-bit times and count times step for 3 to 5 |
| WireFormat.FlushedPageHeaders | sw/child/src/mxfs_flush.cc:55-203 | every header of a flushed page: kinds in order, milliseconds below 1000; comp, step and length of ANTP, dimension 3 and base 0 of gyro and accelerometer, base 0 of temperature |
| PageFormat.ParsersAgree | sw/child/src/mxfs_timerange.cc:99-146 | on every chain of sensor headers, the count of one parser times the record size is the length the other returns |
| PageFormat.TimesWalkPadded | sw/child/src/mxfs_timerange.cc:92-103 | the zeros behind the page in the 2112-byte buffer do not change the result |
| PageFormat.DataChainInBounds | sw/child/src/mxfs_read.cc:47-127 | on a chain of sensor headers mxfs_read never leaves the page buffer |
| PageFormat.WalksOverSerialized | sw/child/src/mxfs_read.cc:47-127 | over serialized chunks both parsers see exactly the chunks and stop exactly at their end, for any payload bytes |
| PageEncoder.ChunksOfSound | sw/child/src/mxfs_append.cc:34-60 | the size computed from the counts is the length flush emits, layer by layer |
| PageEncoder.PageImage | sw/child/src/mxfs_flush.cc:55-203 | the encoded page has exactly the accounted length, at most 2000 bytes |
| PageEncoder.PageRoundTrip | sw/child/src/mxfs_flush.cc:55-203 | from a flushed page both parsers recover each layer's payloads in append order and stop at work_len |
| PageTimes.AntpTimesSurvive | sw/child/src/mxfs_timerange.cc:110-121 | ANTP count exact; last time exact iff its seconds fit 32 bits; first time exact iff they fit and a first time of 0 stands only among multiples of 2^32 seconds |
| PageTimes.SensorTimes | sw/child/src/mxfs_timerange.cc:122-144 | exact count, start is the first time modulo 2^32, end is start plus count times the stored step |
| PageTimes.SensorTimesBoundIff | sw/child/src/mxfs_flush.cc:114-119 | times in order: start exact and end less than count ms before the true last time (or saturated), iff the first time is below 2^32 and the average gap at most 65535 or not wrapped below it |
| PageTimes.OutOfOrderEnd | sw/child/src/mxfs_flush.cc:114-119 | a last time before the first: the difference wraps at 64 bits, is divided, cut to 32 bits and capped at 65535 |
| PageTimes.SingleTemperature | sw/child/src/mxfs_flush.cc:157-181 | one temperature record at any time: the end is its own time iff it is below 2^32 ms and the left-over time agrees modulo 2^32 |
| PageTimes.SingleTemperatureAfter | sw/child/src/mxfs_flush.cc:149-181 | the left-over time by name: the last record of the last non-empty layer before temperature, else 0 |
| PageTimes.ImageSeconds | sw/child/src/mxfs_flush.cc:55-81 | the time in the first header of a page, which the mount compares, is that of the first record of the first layer it holds |
| LogFs.Flush | sw/child/src/mxfs_flush.cc:11-262 | whatever the driver answers, all buffers are drained |
| LogFs.FlushWellFormed | sw/child/src/mxfs_flush.cc:204-244 | a flush changes the flash by its driver calls only and keeps cursor, index and buffers in range |
| LogFs.OneMoreFits | sw/child/src/mxfs_append.cc:61-104 | one more record below the auto-flush threshold keeps the page within 2000 bytes |
| LogFs.AppendWellFormed | sw/child/src/mxfs_append.cc:9-106 | every append, with or without automatic flush, keeps the 2000-byte bound and touches the flash only by flushing |
| Runs.DiskOfRun | sw/child/src/mxfs_flush.cc:204-221 | the flash after any run, power cuts included, is what its driver calls made of it |
| EraseDiscipline.FlushedIndexOk | sw/child/src/mxfs_flush.cc:223-232 | the index byte of a flushed page has a layer's bit iff mxfs_read returns something for it, and is never the wildcard |
| EraseDiscipline.IndexBits | sw/child/inc/mxfs_def.h:84-91 | layers 0 to 5 are bits 2 to 7 of the index byte, the two low bits stay clear |
| EraseDiscipline.ImageBytes | sw/child/src/mxfs_read.cc:47-127 | mxfs_read of a flushed page returns the payloads the layer had buffered |
| EraseDiscipline.UnusedBlockIsBlank | sw/child/src/mxfs_instance.cc:94-95 | page 0 without MAGIC iff the whole block is blank |
| EraseDiscipline.FlushKeepsInvIff | sw/child/src/mxfs_flush.cc:204-221 | a flush keeps the discipline iff no due erase is refused over data |
| EraseDiscipline.RefusedEraseOverwrites | sw/child/src/mxfs_flush.cc:204-221 | after a refused erase the next flush programs a page that still holds data |
| Witnesses.RefusedEraseHappens | sw/child/src/mxfs_flush.cc:204-221 | on every full chip in order, mounted, a flush with a refused erase fails and the next one overwrites |
| FlashReads.FlushedPageReads | sw/child/src/mxfs_read.cc:47-127 | a served flush over any page: mxfs_read returns the buffered payloads and then whatever the left-over bytes hold |
| FlashReads.FlushReadsBackIff | sw/child/src/mxfs_read.cc:47-127 | ... exactly the payloads for every layer iff the left-over bytes form no chain that copies anything |
| FlashReads.FlushReadsBackIffNoMagic | sw/child/src/mxfs_read.cc:47-56 | ... iff they carry no MAGIC, where they begin at a header with records or carry none |
| FlashReads.KeptOnFlashIff | sw/child/src/mxfs_flush.cc:204-221 | on a chip in order, no due erase refused over data: flash and buffers keep everything iff the driver serves the flush |
| Witnesses.StaleRecordComesBack | sw/child/src/mxfs_flush.cc:204-221 | after a refused erase an old record is read behind the new one although the log has lost nothing |
| Witnesses.MagicInPayloadIsHarmless | sw/child/src/mxfs_read.cc:47-56 | MAGIC inside an old payload, in front of a header no layer uses, leaves the read exact |
| EraseDiscipline.MountRecovery | sw/child/src/mxfs_instance.cc:110-134 | the cursor goes to the least unused block, else to the first block with the newest page-0 time |
| EraseDiscipline.MountGivesInv | sw/child/src/mxfs_instance.cc:66-134 | a mount of a chip in order re-establishes the whole invariant |
| EraseDiscipline.UserEraseKeepsInvIff | sw/child/src/mxfs_erase.cc:9-18 | an explicit erase keeps the invariant iff it spares the block being filled |
| EraseDiscipline.EraseOfCurrentBlockHidesPages | sw/child/src/mxfs_erase.cc:9-18 | erasing the block being filled makes it look unused while it holds a page |
| EraseDiscipline.PowerCutIsPartialFlush | sw/child/src/mxfs_flush.cc:204-221 | power lost between any two driver calls leaves the chip in order |
| EraseDiscipline.StepKeepsInvIff | sw/child/src/mxfs_flush.cc:204-244 | every event keeps the invariant exactly when it is careful |
| EraseDiscipline.EraseBeforeProgram | sw/child/src/mxfs_flush.cc:204-244 | from a blank chip, over every careful run, each program hits a blank page and unused blocks are blank |
| RingLog.RingRun | sw/child/src/mxfs_flush.cc:204-244 | in every session on any chip in order, cursor, erase marks, flash and erase counts are those of the abstract log on top of the mounted chip |
| RingLog.SlidingWindow | sw/child/src/mxfs_flush.cc:204-244 | flush m lands at block 1 + (r - 1 + m/64) % 1023, page m % 64, and is there while m/64 >= (n-1)/64 - 1022; after that the slot holds the page of a later flush of the same slot, or is blank when that pass has only erased it |
| RingLog.FlushLands | sw/child/src/mxfs_flush.cc:224-244 | the same in numbers: block 1 + (r - 1 + m/64) % 1023, page m % 64, kept while m/64 >= (n-1)/64 - 1022 |
| RingLog.UnreachedUntouched | sw/child/src/mxfs_flush.cc:235-244 | a block at distance k from the mount block is as mounted for the first 64 k flushes |
| Conservation.EveryByteAccounted | sw/child/src/mxfs_append.cc:34-105 | over every run with failures, erases, power cuts and remounts: buffered plus accepted bytes of a layer = the batches drained, then the buffer; the batches not lost = what the log of programmed images holds, in order (on the flash: ConservedAcrossCuts) |
| Conservation.BatchWrittenIff | sw/child/src/mxfs_flush.cc:204-221 | a drained batch reaches a page iff there is something to write and the driver serves the flush, or the power cut comes after its program |
| Conservation.EndToEnd | sw/child/src/mxfs_append.cc:34-105 | in a session on any chip in order, accepted bytes of a layer = dropped pages, then what mxfs_read returns from the retained pages in log order, then the buffer; nothing dropped in the first pass |
| Persistence.ProgrammedStays | sw/child/src/mxfs_flush.cc:204-244 | over every careful run with power cuts and remounts a programmed page is exactly what was programmed until its block is erased |
| Persistence.MountedStays | sw/child/src/mxfs_instance.cc:110-134 | so is every page the chip held at the mount |
| Persistence.ConservedAcrossCuts | sw/child/src/mxfs_append.cc:34-105 | conservation across remounts: every accepted byte is lost with its batch, or read back from a page that stays until erased, or still buffered |
| Conservation.FlushLosesIff | sw/child/src/mxfs_flush.cc:55-221 | log and buffers lose nothing in a flush iff there is nothing to write or the driver serves the due erase and the program; otherwise it reports an error, logs nothing and leaves all buffers empty (on the flash: KeptOnFlashIff) |
| Conservation.AppendHidesLoss | sw/child/src/mxfs_append.cc:69-77 | an append with automatic flush reports success and holds only its own record; the log keeps what was buffered iff the driver serves the flush |
| Conservation.EvenWear | sw/child/src/mxfs_flush.cc:204-244 | in every session on any chip in order, erase counts of any two data blocks differ by at most one |
| MountRetention.MountKeepsPages | sw/child/src/mxfs_instance.cc:128-132 | with an unused block, all earlier pages stay unchanged for the 64 flushes that fill it |
| MountRetention.FullChipLosesNewest | sw/child/src/mxfs_instance.cc:122-127 | the first flush destroys data iff no block was unused; it erases the newest block |
| MountRetention.MountFindsLastBegun | sw/child/src/mxfs_instance.cc:110-134 | after a session that leaves no block unused, with page-0 seconds growing from row to row, the mount goes to the block begun last |
| MountRetention.RemountErasesLastBegun | sw/child/src/mxfs_instance.cc:122-127 | ... and its first flush erases that block |
| IndexQuery.ListedAgrees | sw/child/src/mxfs_timerange.cc:43-63 | a readable page is always listed; exact with a byte written since mount; stale bytes list nothing |
| IndexQuery.QueryAgrees | sw/child/src/mxfs_timerange.cc:27-67 | the listing is ascending, misses no readable page and is exact wherever the index byte is not the mount-time wildcard |
| IndexQuery.RunIndexExact | sw/child/src/mxfs_timerange.cc:27-67 | over every careful run since a mount, each page programmed in it is listed for a layer iff mxfs_read returns something for it |
| IndexQuery.FlushWritesIndex | sw/child/src/mxfs_flush.cc:223-232 | a successful flush replaces the wildcard of its page |
| IndexQuery.StepKeepsWritten | sw/child/src/mxfs_flush.cc:223-232 | only a remount puts the wildcard back |
| AppendDecision.AppendDecides | sw/child/src/mxfs_append.cc:17-104 | accepted lengths are 18, 6 and 2; the flush comes iff the page so far and the raw record exceed 1984 bytes; the record is refused iff the times and records with it exceed the buffer; result 0, -1 or -2 |
| AppendDecision.OneLayerSession | sw/child/src/mxfs_append.cc:61-77 | sessions of one layer flush after exactly every 58, 328 or 984 records |
| Capacity.AutoFlushDensity | sw/child/src/mxfs_append.cc:61-77 | an automatically flushed page encodes 1967 to 2000 bytes |
| Capacity.AppendKeepsHeld | sw/child/src/mxfs_append.cc:79-105 | no layer buffer overflows |
| Capacity.HostNeverFull | sw/child/src/mxfs_append.cc:79-86 | with 16384-byte buffers NEED_MORE_BUFFER is unreachable |
| Capacity.Rp2040FullIff | sw/child/src/mxfs_append.cc:79-86 | with 8192-byte buffers NEED_MORE_BUFFER iff temperature, 819 buffered, no automatic flush |
| Witnesses.Rp2040BufferFills | sw/child/src/mxfs_append.cc:79-86 | 819 appends of a temperature record after any mount reach that state |
| Capacity.ReadFitsBuffer | sw/child/src/mxfs_read.cc:47-127 | on every chip in order mxfs_read returns at most 1984 bytes |
| FakeFlash.Flash.Read | sw/child/src/drivers/macos/fake_read.cc:12-29 | copies at most one page, leaves the rest of the buffer |
| FakeFlash.Flash.Write | sw/child/src/drivers/macos/fake_write.cc:9-28 | overwrites the front of one page; a refused call changes nothing |
| FakeFlash.Flash.Erase | sw/child/src/drivers/macos/fake_erase.cc:9-26 | all 64 pages of one block become 0xFF |
| Instance.Mxfs.constructor | sw/child/src/mxfs_instance.cc:14-142 | empty buffers, status and cursor of the mount function |
| Instance.Mxfs.FindCursor | sw/child/src/mxfs_instance.cc:110-134 | the scan loop computes the mount block |
| Instance.Mxfs.CurrentLength | sw/child/src/mxfs_append.cc:34-60 | the loop over the counts computes the encoded size of what is buffered |
| Instance.Mxfs.Append | sw/child/src/mxfs_append.cc:9-106 | new state and return code are those of the append function, errors included |
| Instance.Mxfs.CopyAntp | sw/child/src/mxfs_flush.cc:55-84 | one header and record per buffered ANTP record, appended to the page buffer; the layer is drained |
| Instance.Mxfs.CopyDim3 | sw/child/src/mxfs_flush.cc:87-146 | one header with count and step, then the records; the layer is drained |
| Instance.Mxfs.CopyTemperature | sw/child/src/mxfs_flush.cc:149-203 | the same for temperature, with the stale last time for a single record |
| Instance.Mxfs.Encode | sw/child/src/mxfs_flush.cc:55-203 | the page buffer holds the page image, the flags its layers, and all layers are empty |
| Instance.Mxfs.AdvanceCursor | sw/child/src/mxfs_flush.cc:224-244 | index update and circular cursor with the erase mark |
| Instance.Mxfs.Flush | sw/child/src/mxfs_flush.cc:11-262 | new state and return code are those of the flush function for every driver answer |
| Instance.Mxfs.UserErase | sw/child/src/mxfs_erase.cc:9-18 | the block is erased iff the driver agrees, its answer is returned, cursor and index stay |
| Queries.Read | sw/child/src/mxfs_read.cc:9-133 | returns exactly the bytes of the layer's walk and touches nothing else; ERR without buffer |
| Queries.DataPagesAreChains | sw/child/src/mxfs_read.cc:47-56 | on every chip in order no header read leaves a page |
| Queries.TimerangeByBlock | sw/child/src/mxfs_timerange.cc:70-162 | the ranges of the block's pages that hold the layer, NEED_MORE_BUFFER iff they exceed the array |
| Queries.Timerange | sw/child/src/mxfs_timerange.cc:9-68 | the listing of the layer, NEED_MORE_BUFFER iff it exceeds the array |
| BlockReports.SessionReports | sw/child/src/mxfs_timerange.cc:93-94 | in every session on any chip in order a block reports all its ranges iff the cursor has just entered it or it was used at mount and is not reached yet, else none |
| BlockReports.FlushSilencesBlock | sw/child/src/mxfs_flush.cc:206-213 | right after a flush its block reports nothing |
| BlockReports.FreshReportsIff | sw/child/src/mxfs_flush.cc:235-244 | on a fresh chip only a block the cursor has just entered reports |
| Witnesses.RingTurnReportsAgain | sw/child/src/mxfs_flush.cc:235-244 | after 65472 flushes the mount block reports the pages of flushes 0 to 63 without a remount |
| Witnesses.FullTurnHappens | sw/child/src/mxfs_append.cc:9-106 | a session of 65472 flushes exists on every chip in order |
| BlockReports.RemountMarksUsed | sw/child/src/mxfs_instance.cc:94-95 | a remount sets the flag of every block that holds a readable page |
| BlockReports.ReportedCount | sw/child/src/mxfs_timerange.cc:99-160 | the reported count times the record size is what mxfs_read returns, on every data page |
| BlockReports.ReportedTimes | sw/child/src/mxfs_timerange.cc:88-160 | on a mounted chip the one range reported for a page flushed from given buffers is the span of that page, iff it holds the layer |
| DomainFsm.StateClosedForm | hw/fsm_fast.v:27-68 | state and counter are functions of the number of clocks; the counter stays within its threshold |
| DomainFsm.OutputsClosedForm | hw/fsm_slow.v:70-102 | out_ctrl1 low, then high in READY_1, then in_ctrl one clock later; out_ctrl0 the software bit one clock later |
| DomainFsm.ResetKeepsOutputs | hw/fsm_fast.v:70-102 | reset leaves the outputs until the first edge, which lowers them |
| DomainFsm.Domain.Clock | hw/fsm_fast.v:27-102 | one edge moves all registers as the tick function says, from their old values |
| Selector.OutputIsDelayedOwnership | hw/fsm_selector.v:40-89 | Q is the ownership table of the lines sampled three edges earlier, high until then |
| Selector.SelectorModule.Clock | hw/fsm_selector.v:40-89 | one edge moves synchroniser, state and output from their old values |
| BusArbiter.NoEarlyGrantIff | hw/fsm_slow.v:88-102 | under every interleaving Q grants nothing before 403 slow clocks, iff the slow line is low at release |
| BusArbiter.EdgeInResetLowersLine | hw/fsm_slow.v:88-102 | one edge during reset lowers both outputs of a domain |
| BusArbiter.OwnershipOfRun | hw/fsm_tb.v:409-439 | for every interleaving Q is low iff the Child owned the lines as the fourth last fast edge sampled them |
| BusArbiter.DomainsOfRun | hw/fsm_tb.v:409-439 | for every interleaving and changing bits each domain is the domain alone, fed its bits and the other's out_ctrl0 as it stood before each edge |
| BusArbiter.LinesOfRun | hw/fsm_fast.v:88-102 | both ownership lines of any run as functions of the stimuli |
| BusArbiter.OwnershipOfStimuli | hw/fsm_selector.v:40-89 | Q of any run as a function of the stimuli |
| BusArbiter.GrantWithoutFastBitIff | hw/fsm_slow.v:98-99 | with the fast bit held at 0, Q is low iff that edge came between 403 and 603 slow clocks with the fast line low |
| BusArbiter.GrantWithoutBitsIff | hw/fsm_fast.v:98-99 | with both bits at 0 the clock counts alone decide: the fast line is high from 203 to 303 fast clocks |
| BusArbiter.GrantAt403 | hw/fsm_slow.v:98-99 | 403 slow clocks and four fast ones from reset, no bit set: the Child owns the bus |
| BusArbiter.ArbitrationSettles | hw/fsm_tb.v:409-439 | both domains VALID and bits held: the Child owns the bus iff fast bit 1 and slow bit 0 |
| BusArbiter.ArbitrationFromReset | hw/fsm_tb.v:409-439 | the same from reset, after 303 fast and 603 slow clocks under any inputs |
| SpiNand.AddressBytes | sw/parent/src/write.cc:76-80 | the address bytes are the page number block * 64 + page |
| SpiNand.WriteFollowsProtocol | sw/parent/src/write.cc:28-88 | each poll of a write sends the next command of the protocol or waits |
| SpiNand.EraseFollowsProtocol | sw/parent/src/erase.cc:25-59 | the same for an erase |
| SpiNand.ReadFollowsProtocol | sw/parent/src/read.cc:96-166 | the same for a read |
| SpiNand.TraceRefinesProtocol | sw/parent/src/write.cc:28-88 | for every response sequence: whole rounds of commands and a prefix, DONE once per round, one stage per productive poll |
| SpiNand.OversizeNeverLoads | sw/parent/src/write.cc:53-55 | a buffer that does not fit the 2112-byte frame behind three command bytes never gets past write-enable |
| SpiNand.WritableIff | sw/parent/src/write.cc:53-55 | a write can complete iff 3 + its length is at most 2112 |
| SpiNand.ExceptionIff | sw/parent/src/write.cc:48-63 | a poll returns -1 iff it would load a buffer that does not fit, 1 iff it sends the execute command |
| SpiNand.LatchGuards | sw/parent/src/write.cc:46-75 | a poll sends the next command unless the device is busy, or the command is load, execute or erase and the latch is not set |
| SpiNand.WriteOnBus | sw/parent/src/write.cc:32-85 | the bytes of one write on the bus |
| SpiNand.EraseOnBus | sw/parent/src/erase.cc:25-59 | the bytes of one erase |
| SpiNand.ReadOnBus | sw/parent/src/read.cc:104-145 | the bytes of one read: ECC off and buffer mode on in the register that came back |
| SpiNand.JobsCompose | sw/parent/src/erase.cc:54-55 | a completed job leaves the state every other job starts from |
| SpiNand.Device.WriteBlockPage | sw/parent/src/write.cc:9-89 | state, command and return value of one poll |
| SpiNand.Device.EraseBlock | sw/parent/src/erase.cc:8-60 | state, command and return value of one poll |
| SpiNand.Device.ReadByBlockPage | sw/parent/src/read.cc:81-163 | state, command and return value of one poll; the buffer receives the chip's answer exactly on the last step |

## Left out

- Queries.Read: the caller's buffer is required to have room for the layer, because the source copies without checking and what it then overwrites is not modelled; 1984 bytes always suffice (`ReadFitsBuffer`); configuration text is bounded by `bufferLen` as in the source.
- Instance.Mxfs.Append: a failing driver is modelled by its answers; a program that fails halfway is not (page program and block erase are atomic).
- RingLog.RingRun: runs with driver failures, explicit erases or power cuts are covered by `EraseBeforeProgram`, `EveryByteAccounted` and `ProgrammedStays`, not by the closed form of the window.
- SpiNand.Device.ReadByBlockPage: the printed diagnostics; the register value the first step reads back is a parameter that stays fixed.
- mxfs_write and configuration pages in block 0: a direct copy beside the log.
- mxfs_release_instance, allocation, logging, the singleton lock and the mount callback.
- Read failures of the driver during mount and queries: the fake driver fails only without a chip.
- The `__LINUX__` branches: they test a flag constant that is 0 and are marked as not implemented in part.
- GPIO, SPI transfers, ioctl and SDK calls of the bcm2711 and rp2040 drivers; spi_read_registers appears as the poll result.
- read_initialize in sw/parent/src/read.cc: the same machine with page 0.
- sw/parent/src/format.cc: command line, printing and ad-hoc decoders.
- debug_status_egress: it only mirrors registers.
- Torn pages, bit errors, ECC, bad blocks and metastability.

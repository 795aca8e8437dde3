/** The mutable instance of the child's file system: byte buffers, counters, index and cursor, and
    the operations that update them. Each operation is proved against the function of LogFs. */
module Instance {
  import opened Layout
  import opened CompressHeader
  import opened PageFormat
  import opened PageEncoder
  import opened Capacity
  import opened FakeFlash
  import opened Runs
  import L = LogFs

  /** A layer buffer as bytes: 8 bytes of time, then the record, one after the other. */
  function Packed(recs: seq<Rec>): seq<Byte>
  {
    if recs == [] then []
    else Packed(recs[..|recs| - 1]) + (Le64(recs[|recs| - 1].time) + recs[|recs| - 1].payload)
  }

  lemma PackedSnoc(recs: seq<Rec>, rec: Rec)
    ensures Packed(recs + [rec]) == Packed(recs) + (Le64(rec.time) + rec.payload)
  {
    assert (recs + [rec])[..|recs|] == recs;
  }

  lemma {:induction false} PackedLength(layer: nat, recs: seq<Rec>)
    requires RecsOk(layer, recs)
    ensures |Packed(recs)| == |recs| * Stride(layer)
  {
    if recs != [] {
      PackedLength(layer, recs[..|recs| - 1]);
      StepProduct(|recs| - 1, Stride(layer));
    }
  }

  /** Record number i of a packed buffer. */
  lemma {:induction false} PackedAt(layer: nat, recs: seq<Rec>, i: nat)
    requires RecsOk(layer, recs) && i < |recs|
    ensures var b, at := Packed(recs), i * Stride(layer);
            && at + Stride(layer) <= |b|
            && b[at..at + Stride(layer)] == Le64(recs[i].time) + recs[i].payload
    decreases |recs|
  {
    var n := |recs| - 1;
    var tail := Le64(recs[n].time) + recs[n].payload;
    PackedLength(layer, recs);
    PackedLength(layer, recs[..n]);
    SliceOfConcat(Packed(recs[..n]), tail);
    if i < n {
      PackedAt(layer, recs[..n], i);
      SliceOfPrefix(Packed(recs[..n]), tail, i * Stride(layer), i * Stride(layer) + Stride(layer));
    }
  }

  lemma SliceOfConcat<T>(a: seq<T>, b: seq<T>)
    ensures (a + b)[|a|..|a| + |b|] == b
  {
  }

  lemma SliceOfPrefix<T>(a: seq<T>, b: seq<T>, from: nat, upto: nat)
    requires from <= upto <= |a|
    ensures (a + b)[from..upto] == a[from..upto]
  {
  }

  lemma SplitRecord(time: U64, payload: seq<Byte>, r: seq<Byte>)
    requires r == Le64(time) + payload
    ensures ReadLe64(r[..TIME_SIZE]) == time && r[TIME_SIZE..] == payload
  {
    ReadLe64OfLe64(time, []);
    assert r[..TIME_SIZE] == Le64(time) + [];
  }

  lemma SubSlice<T>(s: seq<T>, from: nat, mid: nat, end: nat)
    requires from <= mid <= end <= |s|
    ensures s[from..end][..mid - from] == s[from..mid] && s[from..end][mid - from..] == s[mid..end]
  {
  }

  /** What the two memcpy calls of a copy loop find at record i. */
  lemma RecordAt(layer: nat, recs: seq<Rec>, i: nat, at: nat)
    requires RecsOk(layer, recs) && i < |recs| && at == i * Stride(layer)
    ensures at + Stride(layer) <= |Packed(recs)|
    ensures ReadLe64(Packed(recs)[at..at + TIME_SIZE]) == recs[i].time
    ensures Packed(recs)[at + TIME_SIZE..at + Stride(layer)] == recs[i].payload
  {
    PackedAt(layer, recs, i);
    SplitRecord(recs[i].time, recs[i].payload, Packed(recs)[at..at + Stride(layer)]);
    SubSlice(Packed(recs), at, at + TIME_SIZE, at + Stride(layer));
  }

  lemma RecordIn(layer: nat, recs: seq<Rec>, i: nat, at: nat, bytes: seq<Byte>)
    requires RecsOk(layer, recs) && at == i * Stride(layer) < |bytes| && bytes == Packed(recs)
    ensures i < |recs| && at + Stride(layer) <= |bytes|
    ensures ReadLe64(bytes[at..at + TIME_SIZE]) == recs[i].time
    ensures bytes[at + TIME_SIZE..at + Stride(layer)] == recs[i].payload
    ensures |recs[i].payload| == RecordSize(layer)
  {
    PackedLength(layer, recs);
    if i >= |recs| {
      ProductOrder(|recs|, i, Stride(layer));
    }
    RecordAt(layer, recs, i, at);
  }

  lemma ProductOrder(a: nat, b: nat, k: nat)
    requires a <= b
    ensures a * k <= b * k
  {
  }

  lemma ProductCancel(a: nat, b: nat, k: nat)
    requires a <= b && a * k >= b * k && k > 0
    ensures a == b
  {
    if a < b {
      StepProduct(a, k);
      ProductOrder(a + 1, b, k);
    }
  }

  lemma ArraySlice(a: array<Byte>, end: nat, from: nat, upto: nat)
    requires from <= upto <= end <= a.Length
    ensures a[..][..end][from..upto] == a[from..upto]
  {
  }

  /** The bytes of an ANTP layer, record by record as the copy loop writes them. */
  function AntImage(layer: nat, recs: seq<Rec>): seq<Byte>
    requires layer < LAYER_ANTP_MAX
  {
    if recs == [] then []
    else
      var i := |recs| - 1;
      AntImage(layer, recs[..i]) + (Pack(AntHeader(layer, recs[i])) + recs[i].payload)
  }

  lemma {:induction false} AntImageIsSerialized(layer: nat, recs: seq<Rec>)
    requires layer < LAYER_ANTP_MAX && RecsOk(layer, recs)
    ensures AllSound(AntChunks(layer, recs)) && AntImage(layer, recs) == Serialize(AntChunks(layer, recs))
  {
    AntChunksSound(layer, recs);
    if recs != [] {
      var i := |recs| - 1;
      var c := Chunk(AntHeader(layer, recs[i]), recs[i].payload);
      AntImageIsSerialized(layer, recs[..i]);
      SerializeOne(c);
      SerializeConcat(AntChunks(layer, recs[..i]), [c]);
    }
  }

  lemma AntImageStep(layer: nat, recs: seq<Rec>, i: nat)
    requires layer < LAYER_ANTP_MAX && i < |recs|
    ensures AntImage(layer, recs[..i + 1])
            == AntImage(layer, recs[..i]) + (Pack(AntHeader(layer, recs[i])) + recs[i].payload)
  {
    assert recs[..i + 1][..i] == recs[..i];
  }

  /** The bytes of a layer that has a single header. */
  function OneHeaderImage(layer: nat, rs: seq<Rec>, stale: U64): seq<Byte>
    requires LAYER_ANTP_MAX <= layer < LAYER_MAX
  {
    if rs == [] then []
    else if layer < LAYER_TEMPERATURE then Pack(Dim3Header(layer, rs)) + Payloads(rs)
    else Pack(TemperatureHeader(rs, stale)) + Payloads(rs)
  }

  /** The bytes of one layer of the page. */
  function LayerImage(bufs: seq<seq<Rec>>, layer: nat): seq<Byte>
    requires layer < LAYER_MAX == |bufs|
  {
    if layer < LAYER_ANTP_MAX then AntImage(layer, bufs[layer])
    else OneHeaderImage(layer, bufs[layer], LastTime(bufs, LAYER_TEMPERATURE))
  }

  lemma LayerImageIsSerialized(bufs: seq<seq<Rec>>, layer: nat)
    requires Fits(bufs) && layer < LAYER_MAX
    ensures AllSound(LayerChunks(bufs, layer)) && Serialize(LayerChunks(bufs, layer)) == LayerImage(bufs, layer)
  {
    LayerIsSmall(bufs, layer);
    LayerChunksSound(bufs, layer);
    if layer < LAYER_ANTP_MAX {
      AntImageIsSerialized(layer, bufs[layer]);
    } else if bufs[layer] != [] {
      SerializeOne(LayerChunks(bufs, layer)[0]);
    }
  }

  /** The page buffer after the first `n` layers. */
  function PartialImage(bufs: seq<seq<Rec>>, n: nat): (image: seq<Byte>)
    requires n <= LAYER_MAX == |bufs|
  {
    if n == 0 then [] else PartialImage(bufs, n - 1) + LayerImage(bufs, n - 1)
  }

  predicate ImageSerialized(bufs: seq<seq<Rec>>, n: nat)
    requires n <= LAYER_MAX == |bufs|
  {
    AllSound(ChunksOf(bufs, n)) && PartialImage(bufs, n) == Serialize(ChunksOf(bufs, n))
  }

  lemma PartialImageIsSerialized(bufs: seq<seq<Rec>>, n: nat)
    requires Fits(bufs) && n <= LAYER_MAX
    ensures ImageSerialized(bufs, n)
  {
    for k := 0 to n
      invariant ImageSerialized(bufs, k)
    {
      LayerImageIsSerialized(bufs, k);
      ChunksStep(bufs, k);
    }
  }

  lemma ChunksStep(bufs: seq<seq<Rec>>, n: nat)
    requires n < LAYER_MAX == |bufs| && AllSound(ChunksOf(bufs, n)) && AllSound(LayerChunks(bufs, n))
    ensures AllSound(ChunksOf(bufs, n + 1))
    ensures Serialize(ChunksOf(bufs, n + 1)) == Serialize(ChunksOf(bufs, n)) + Serialize(LayerChunks(bufs, n))
  {
    SerializeConcat(ChunksOf(bufs, n), LayerChunks(bufs, n));
  }

  lemma PartialImageIsPage(bufs: seq<seq<Rec>>)
    requires Fits(bufs)
    ensures PartialImage(bufs, LAYER_MAX) == PageImage(bufs)
  {
    PartialImageIsSerialized(bufs, LAYER_MAX);
  }

  /** Page bytes, length, last time and index byte after the first `k` layers of `bufs`. */
  ghost predicate EncodedAs(bufs: seq<seq<Rec>>, k: nat, image: seq<Byte>, pos: nat, last: U64, flags: bv8)
    requires k <= LAYER_MAX == |bufs|
  {
    && pos == TotalLength(bufs, k)
    && image == PartialImage(bufs, k)
    && last == LastTime(bufs, k)
    && flags == L.PageFlags(bufs, k)
  }

  lemma EncodedStep(bufs: seq<seq<Rec>>, k: nat, image: seq<Byte>, pos: nat, last: U64, flags: bv8)
    requires k < LAYER_MAX == |bufs| && EncodedAs(bufs, k, image, pos, last, flags)
    ensures EncodedAs(bufs, k + 1, image + LayerImage(bufs, k), pos + LayerLength(k, |bufs[k]|),
                      if bufs[k] == [] then last else bufs[k][|bufs[k]| - 1].time,
                      if bufs[k] == [] then flags else flags | L.Flag(k))
  {
  }

  lemma RoomForLayer(bufs: seq<seq<Rec>>, n: nat)
    requires Fits(bufs) && n < LAYER_MAX
    ensures TotalLength(bufs, n) + LayerLength(n, |bufs[n]|) == TotalLength(bufs, n + 1) <= 2000
    ensures |bufs[n]| <= 1000
  {
    LayerIsSmall(bufs, n);
    TotalLengthMonotone(bufs, n + 1, LAYER_MAX);
  }

  lemma PayloadsStep(recs: seq<Rec>, i: nat)
    requires i < |recs|
    ensures Payloads(recs[..i + 1]) == Payloads(recs[..i]) + recs[i].payload
  {
    assert recs[..i + 1][..i] == recs[..i];
  }

  /** The flash after a flush, driver call by driver call. */
  lemma FlushDiskByCalls(s: L.State, drv: L.Driver)
    requires L.WellFormed(s) && !AllEmpty(s.bufs) && (s.status[s.block].invalid ==> drv.eraseOk)
    ensures var erased := if s.status[s.block].invalid then L.Apply(s.disk, L.Erase(s.block)) else s.disk;
            L.ApplyAll(s.disk, L.FlushOps(s, drv))
            == if drv.programOk then L.Apply(erased, L.Program(s.block, s.page, PageImage(s.bufs))) else erased
  {
    var erase, program := L.Erase(s.block), L.Program(s.block, s.page, PageImage(s.bufs));
    if s.status[s.block].invalid {
      ApplyTwo(s.disk, erase, program);
      ApplyOne(s.disk, erase);
      assert L.FlushOps(s, drv) == if drv.programOk then [erase, program] else [erase];
    } else {
      ApplyOne(s.disk, program);
      assert L.FlushOps(s, drv) == if drv.programOk then [program] else [];
    }
  }

  /** A layer's counters and bytes represent the records `rs`. */
  ghost predicate LayerHolds(l: nat, rs: seq<Rec>, count: nat, length: nat, bytes: seq<Byte>)
  {
    && RecsOk(l, rs)
    && count == |rs|
    && length == |rs| * Stride(l) <= |bytes|
    && bytes[..length] == Packed(rs)
  }

  class Mxfs {
    const cap: nat                        // MXFS_BUFFER_SIZE
    const flash: Flash
    const buffer: seq<array<Byte>>        // mxfs_buffer, one per layer
    const length: array<nat>              // mxfs_length
    const count: array<nat>               // mxfs_count
    const blocks: array<L.BlockStatus>
    const work: array<Byte>               // _work_buffer of mxfs_flush
    var currentBlock: nat
    var currentPage: nat
    ghost var recs: seq<seq<Rec>>         // what the buffers hold, record by record

    /** Sizes and separation of the fixed arrays. */
    ghost predicate Shape()
    {
      && |buffer| == LAYER_MAX
      && (forall l | 0 <= l < LAYER_MAX :: buffer[l].Length == cap && buffer[l] != work)
      && (forall k, l | 0 <= k < l < LAYER_MAX :: buffer[k] != buffer[l])
      && length.Length == count.Length == LAYER_MAX && length != count
      && blocks.Length == BLOCK_COUNT
      && work.Length == PAGE_SIZE
      && work as object != length && work as object != count
      && flash.blocks as object != blocks
    }

    /** Layer `l` holds exactly the records `rs`. */
    ghost predicate LayerOk(l: nat, rs: seq<Rec>)
      requires Shape() && l < LAYER_MAX
      reads length, count, buffer[l]
    {
      LayerHolds(l, rs, count[l], length[l], buffer[l][..])
    }

    /** The instance and its chip as a value. */
    ghost function St(): L.State
      requires flash.Valid()
      reads this, blocks, flash.blocks
    {
      L.State(flash.Image(), currentBlock, currentPage, blocks[..], recs)
    }

    ghost predicate Valid()
      reads this, length, count, blocks, flash.blocks, buffer
    {
      && Shape()
      && flash.Valid()
      && L.WellFormed(St())
      && Holding()
    }

    // ----- mount

    /** MALLOC of the layer buffers, filled with 0xFF. */
    static method AllocateBuffers(cap: nat) returns (bs: seq<array<Byte>>)
      ensures |bs| == LAYER_MAX
      ensures forall l | 0 <= l < LAYER_MAX :: bs[l].Length == cap && fresh(bs[l])
      ensures forall k, l | 0 <= k < l < LAYER_MAX :: bs[k] != bs[l]
    {
      bs := [];
      for n := 0 to LAYER_MAX
        invariant |bs| == n
        invariant forall l | 0 <= l < n :: bs[l].Length == cap && fresh(bs[l])
        invariant forall k, l | 0 <= k < l < n :: bs[k] != bs[l]
      {
        var b := new Byte[cap](i => 0xFF);
        bs := bs + [b];
      }
    }

    /** mxfs_create_instance: empty buffers, the block scan and the cursor. */
    constructor (flash: Flash, cap: nat)
      requires flash.Valid()
      ensures Valid() && this.flash == flash && this.cap == cap
      ensures fresh(length) && fresh(count) && fresh(blocks) && fresh(work)
      ensures forall l | 0 <= l < LAYER_MAX :: fresh(buffer[l])
      ensures flash.Image() == old(flash.Image())
      ensures St() == L.Mount(flash.Image())
    {
      var bs := AllocateBuffers(cap);
      this.cap := cap;
      this.flash := flash;
      buffer := bs;
      length := new nat[LAYER_MAX](i => 0);
      count := new nat[LAYER_MAX](i => 0);
      blocks := new L.BlockStatus[BLOCK_COUNT](i => L.BlockStatus(false, 0, Repeat<bv8>(0, PAGE_COUNT)));
      work := new Byte[PAGE_SIZE](i => 0);
      currentBlock, currentPage := BLOCK_START_DATA_AREA, 0;
      recs := L.EmptyBufs();
      new;
      Scan();
    }

    /** The block scan over the zeroed instance. */
    method Scan()
      requires Shape() && flash.Valid() && currentBlock == BLOCK_START_DATA_AREA && recs == L.EmptyBufs()
      requires forall l | 0 <= l < LAYER_MAX :: length[l] == 0 && count[l] == 0
      requires forall b | 0 <= b < BLOCK_COUNT :: blocks[b] == L.BlockStatus(false, 0, Repeat<bv8>(0, PAGE_COUNT))
      modifies this`currentBlock, this`currentPage, blocks
      ensures flash.Image() == old(flash.Image())
      ensures Valid() && St() == L.Mount(flash.Image())
    {
      EmptyLayers();
      ScanHeaders();
      FindCursor();
      assert St() == L.Mount(flash.Image());
    }

    lemma EmptyLayers()
      requires Shape() && recs == L.EmptyBufs()
      requires forall l | 0 <= l < LAYER_MAX :: length[l] == 0 && count[l] == 0
      ensures Holding()
    {
      forall l | 0 <= l < LAYER_MAX ensures LayerOk(l, recs[l]) {
        assert buffer[l][..][..0] == [];
      }
    }

    /** The two words a header read gives, as the mount takes them. */
    static lemma HeaderWords(blk: L.Block, header: seq<Byte>)
      requires L.BlockShape(blk) && |header| == HEADER_SIZE && header == blk[0][..HEADER_SIZE]
      ensures L.BlockStatus(WordAt(header, 0) == MAGIC, WordAt(header, 4), Repeat<bv8>(0xFF, PAGE_COUNT))
              == L.MountedStatus(blk)
    {
    }

    /** The status of one block from a 16-byte read of its page 0. */
    method ScanHeader(block: nat) returns (r: L.BlockStatus)
      requires flash.Valid() && block < BLOCK_COUNT
      ensures r == L.MountedStatus(flash.Image()[block])
    {
      var rbf := new Byte[HEADER_SIZE](i => 0);
      flash.Read(block, 0, rbf);
      HeaderWords(flash.Image()[block], rbf[..]);
      var magic, time := WordAt(rbf[..], 0), WordAt(rbf[..], 4);
      r := L.BlockStatus(magic == MAGIC, time, Repeat<bv8>(0xFF, PAGE_COUNT));
    }

    /** One header read per data block fills the status table. */
    method ScanHeaders()
      requires Shape() && flash.Valid()
      requires forall b | 0 <= b < BLOCK_COUNT :: blocks[b] == L.BlockStatus(false, 0, Repeat<bv8>(0, PAGE_COUNT))
      modifies blocks
      ensures blocks[..] == L.MountStatus(flash.Image(), BLOCK_COUNT)
    {
      for block := BLOCK_START_DATA_AREA to BLOCK_COUNT
        invariant flash.Image() == old(flash.Image())
        invariant blocks[0] == L.BlockStatus(false, 0, Repeat<bv8>(0, PAGE_COUNT))
        invariant forall b | BLOCK_START_DATA_AREA <= b < block :: blocks[b] == L.MountedStatus(flash.Image()[b])
      {
        var status := ScanHeader(block);
        blocks[block] := status;
      }
    }

    /** The block to write next: the first unused one, else the first with the newest header time. */
    method FindCursor()
      requires Shape() && flash.Valid() && currentBlock == BLOCK_START_DATA_AREA
      requires blocks[..] == L.MountStatus(flash.Image(), BLOCK_COUNT)
      modifies this`currentBlock, this`currentPage
      ensures currentBlock == L.MountBlock(flash.Image()) && currentPage == 0
    {
      var startTmm := 0;
      currentPage := 0;
      ghost var d := flash.Image();
      var block := BLOCK_START_DATA_AREA;
      while block < BLOCK_COUNT
        invariant BLOCK_START_DATA_AREA <= block <= BLOCK_COUNT && startTmm >= 0 && currentPage == 0
        invariant flash.Image() == d && blocks[..] == L.MountStatus(d, BLOCK_COUNT)
        invariant L.ScanFrom(d, block, currentBlock, startTmm) == L.MountBlock(d)
        decreases BLOCK_COUNT - block
      {
        assert blocks[..][block] == L.MountedStatus(d[block]);
        if blocks[block].invalid {
          if blocks[block].startTime > startTmm {
            startTmm := blocks[block].startTime;
            currentBlock, currentPage := block, 0;
          }
        } else {
          currentBlock, currentPage := block, 0;
          break;
        }
        block := block + 1;
      }
    }

    // ----- mxfs_flush: copying the layers to the page buffer

    /** Every layer buffer represents its records. */
    ghost predicate Holding()
      requires Shape()
      reads this`recs, length, count, buffer
    {
      |recs| == LAYER_MAX && forall l | 0 <= l < LAYER_MAX :: LayerOk(l, recs[l])
    }

    /** Empties one layer by resetting its two counters. */
    method Drain(layer: nat)
      requires Shape() && layer < LAYER_MAX && Holding()
      modifies length, count, this`recs
      ensures Holding() && recs == old(recs)[layer := []]
    {
      ghost var lengths, counts := length[..], count[..];
      assert forall l | 0 <= l < LAYER_MAX :: LayerHolds(l, recs[l], counts[l], lengths[l], buffer[l][..]);
      length[layer] := 0;
      count[layer] := 0;
      recs := recs[layer := []];
      forall l | 0 <= l < LAYER_MAX
        ensures LayerOk(l, recs[l])
      {
        assert l != layer ==> length[l] == lengths[l] && count[l] == counts[l];
      }
    }

    /** The two memcpy calls of one record: a header and the bytes behind it. */
    method Emit(at: nat, cp: Header, payload: seq<Byte>) returns (pos: nat)
      requires Shape() && FieldsFit(cp) && at + HEADER_SIZE + |payload| <= PAGE_SIZE
      modifies work
      ensures pos == at + HEADER_SIZE + |payload|
      ensures work[..pos] == old(work[..at]) + (Pack(cp) + payload)
    {
      Copy(work, at, Pack(cp));
      pos := at + HEADER_SIZE;
      Copy(work, pos, payload);
      pos := pos + |payload|;
      Associative(old(work[..at]), Pack(cp), payload);
    }

    /** memcpy of the time at offset n of a layer buffer. */
    method TimeAt(layer: nat, n: nat, ghost rs: seq<Rec>, ghost i: nat) returns (tmm: U64)
      requires Shape() && layer < LAYER_MAX && LayerOk(layer, rs)
      requires n == i * Stride(layer) < length[layer]
      ensures i < |rs| && tmm == rs[i].time
    {
      ghost var bytes := buffer[layer][..][..length[layer]];
      RecordIn(layer, rs, i, n, bytes);
      ArraySlice(buffer[layer], length[layer], n, n + TIME_SIZE);
      tmm := ReadLe64(buffer[layer][n..n + TIME_SIZE]);
    }

    /** The record bytes behind it. */
    method PayloadAt(layer: nat, n: nat, ghost rs: seq<Rec>, ghost i: nat) returns (payload: seq<Byte>)
      requires Shape() && layer < LAYER_MAX && LayerOk(layer, rs)
      requires n == i * Stride(layer) < length[layer]
      ensures i < |rs| && payload == rs[i].payload && |payload| == RecordSize(layer)
    {
      ghost var bytes := buffer[layer][..][..length[layer]];
      RecordIn(layer, rs, i, n, bytes);
      payload := buffer[layer][n + TIME_SIZE..n + TIME_SIZE + RecordSize(layer)];
      ArraySlice(buffer[layer], length[layer], n + TIME_SIZE, n + Stride(layer));
    }

    /** One turn of the ANTP copy loop. */
    method CopyAntpRecord(layer: nat, n: nat, at: nat, ghost rs: seq<Rec>, ghost i: nat, ghost before: seq<Byte>)
      returns (pos: nat, tmm: U64)
      requires Shape() && layer < LAYER_ANTP_MAX && LayerOk(layer, rs)
      requires i < |rs| && n == 26 * i && at + 34 <= PAGE_SIZE
      requires work[..at] == before + AntImage(layer, rs[..i])
      modifies work
      ensures pos == at + 34 && tmm == rs[i].time
      ensures work[..pos] == before + AntImage(layer, rs[..i + 1])
    {
      tmm := TimeAt(layer, n, rs, i);
      var cp := Header(MAGIC, tmm / 1000 % U32_RANGE, 0, layer, 0, tmm % 1000, ANTP_RECORD_SIZE);
      var payload := PayloadAt(layer, n, rs, i);
      AntImageStep(layer, rs, i);
      Associative(before, AntImage(layer, rs[..i]), Pack(cp) + payload);
      pos := Emit(at, cp, payload);
    }

    /** The ANTP copy loop: a header and the record, record by record. */
    method CopyAntpRecords(layer: nat, ghost rs: seq<Rec>, start: nat, lastIn: U64, flagsIn: bv8)
      returns (pos: nat, last: U64, flags: bv8)
      requires Shape() && layer < LAYER_ANTP_MAX && LayerOk(layer, rs)
      requires start + 34 * |rs| <= PAGE_SIZE
      modifies work
      ensures pos == start + 34 * |rs|
      ensures work[..pos] == old(work[..start]) + AntImage(layer, rs)
      ensures last == if rs == [] then lastIn else rs[|rs| - 1].time
      ensures flags == if rs == [] then flagsIn else flagsIn | L.Flag(layer)
    {
      pos, last, flags := start, lastIn, flagsIn;
      ghost var i, before := 0, work[..start];
      EmptyIsNeutral(before);
      assert length[layer] == 26 * |rs|;
      var n := 0;
      while n < length[layer]
        invariant i <= |rs| && length[layer] == 26 * |rs| && n == 26 * i && pos == start + 34 * i <= PAGE_SIZE
        invariant work[..pos] == before + AntImage(layer, rs[..i])
        invariant last == if i == 0 then lastIn else rs[i - 1].time
        invariant flags == if i == 0 then flagsIn else flagsIn | L.Flag(layer)
        invariant LayerOk(layer, rs)
        decreases |rs| - i
      {
        flags := flags | L.Flag(layer);
        pos, last := CopyAntpRecord(layer, n, pos, rs, i, before);
        n := n + ANTP_RECORD_SIZE + TIME_SIZE;
        i := i + 1;
      }
      assert i == |rs|;
      assert rs[..|rs|] == rs;
    }

    method CopyAntp(layer: nat, start: nat, lastIn: U64, flagsIn: bv8)
      returns (pos: nat, last: U64, flags: bv8)
      requires Shape() && layer < LAYER_ANTP_MAX && Holding()
      requires start + LayerLength(layer, |recs[layer]|) <= PAGE_SIZE
      modifies work, length, count, this`recs
      ensures Holding() && recs == old(recs)[layer := []]
      ensures pos == start + LayerLength(layer, |old(recs[layer])|)
      ensures work[..pos] == old(work[..start]) + AntImage(layer, old(recs[layer]))
      ensures last == if old(recs[layer]) == [] then lastIn else old(recs[layer])[|old(recs[layer])| - 1].time
      ensures flags == if old(recs[layer]) == [] then flagsIn else flagsIn | L.Flag(layer)
    {
      assert LayerOk(layer, recs[layer]);
      pos, last, flags := CopyAntpRecords(layer, recs[layer], start, lastIn, flagsIn);
      Drain(layer);
    }

    /** The loop that looks for the last time of a one-header layer, from record `from` on. */
    method FindLast(layer: nat, ghost rs: seq<Rec>, from: nat, lastIn: U64) returns (last: U64)
      requires Shape() && layer < LAYER_MAX && LayerOk(layer, rs) && from <= |rs|
      ensures last == if from < |rs| then rs[|rs| - 1].time else lastIn
    {
      last := lastIn;
      var step := RecordSize(layer) + TIME_SIZE;
      ghost var i := from;
      var n := from * step;
      ProductOrder(from, |rs|, Stride(layer));
      while n < length[layer]
        invariant from <= i <= |rs| && n == i * Stride(layer)
        invariant last == if from < i then rs[i - 1].time else lastIn
        decreases |rs| - i
      {
        last := TimeAt(layer, n, rs, i);
        StepProduct(i, Stride(layer));
        n := n + step;
        i := i + 1;
      }
      ProductCancel(i, |rs|, Stride(layer));
    }

    /** The loop that copies the records of a one-header layer behind its header. */
    method CopyRecords(layer: nat, ghost rs: seq<Rec>, at: nat) returns (pos: nat)
      requires Shape() && layer < LAYER_MAX && LayerOk(layer, rs)
      requires at + |rs| * RecordSize(layer) <= PAGE_SIZE
      modifies work
      ensures pos == at + |rs| * RecordSize(layer)
      ensures work[..pos] == old(work[..at]) + Payloads(rs)
    {
      pos := at;
      var step := RecordSize(layer) + TIME_SIZE;
      ghost var i, before := 0, work[..at];
      EmptyIsNeutral(before);
      var n := 0;
      while n < length[layer]
        invariant i <= |rs| && n == i * Stride(layer) && pos == at + i * RecordSize(layer) <= PAGE_SIZE
        invariant LayerOk(layer, rs)
        invariant work[..pos] == before + Payloads(rs[..i])
        decreases |rs| - i
      {
        var payload := PayloadAt(layer, n, rs, i);
        PayloadsStep(rs, i);
        StepProduct(i, Stride(layer));
        StepProduct(i, RecordSize(layer));
        ProductOrder(i + 1, |rs|, RecordSize(layer));
        Associative(before, Payloads(rs[..i]), rs[i].payload);
        Copy(work, pos, payload);
        pos := pos + RecordSize(layer);
        n := n + step;
        i := i + 1;
      }
      ProductCancel(i, |rs|, Stride(layer));
      assert rs[..|rs|] == rs;
    }

    /** The average gap as mxfs_flush computes it: 64-bit difference, 32-bit quotient, saturated. */
    static method AverageStep(first: U64, last: U64, n: nat) returns (step: nat)
      requires n > 0
      ensures step == StepOf(first, last, n)
    {
      var q := (last - first) % U64_RANGE / n % U32_RANGE;
      step := q % 0x1_0000;
      if q > 0xFFFF {
        step := 0xFFFF;
      }
    }

    /** Header, then the records; shared tail of the gyro and temperature branches. */
    method EmitLayer(layer: nat, start: nat, cp: Header) returns (pos: nat)
      requires Shape() && LAYER_ANTP_MAX <= layer < LAYER_MAX && Holding()
      requires FieldsFit(cp) && start + HEADER_SIZE + |recs[layer]| * RecordSize(layer) <= PAGE_SIZE
      modifies work, length, count, this`recs
      ensures Holding() && recs == old(recs)[layer := []]
      ensures pos == start + HEADER_SIZE + |old(recs[layer])| * RecordSize(layer)
      ensures work[..pos] == old(work[..start]) + (Pack(cp) + Payloads(old(recs[layer])))
    {
      Copy(work, start, Pack(cp));
      assert LayerOk(layer, recs[layer]);
      pos := CopyRecords(layer, recs[layer], start + HEADER_SIZE);
      Associative(old(work[..start]), Pack(cp), Payloads(recs[layer]));
      Drain(layer);
    }

    method CopyDim3(layer: nat, start: nat, lastIn: U64, flagsIn: bv8)
      returns (pos: nat, last: U64, flags: bv8)
      requires Shape() && LAYER_GYRO <= layer < LAYER_TEMPERATURE && Holding()
      requires |recs[layer]| < 0x800 && start + LayerLength(layer, |recs[layer]|) <= PAGE_SIZE
      modifies work, length, count, this`recs
      ensures Holding() && recs == old(recs)[layer := []]
      ensures pos == start + LayerLength(layer, |old(recs[layer])|)
      ensures work[..pos] == old(work[..start]) + OneHeaderImage(layer, old(recs[layer]), 0)
      ensures last == if old(recs[layer]) == [] then lastIn else old(recs[layer])[|old(recs[layer])| - 1].time
      ensures flags == if old(recs[layer]) == [] then flagsIn else flagsIn | L.Flag(layer)
    {
      pos, last, flags := start, lastIn, flagsIn;
      ghost var rs := recs[layer];
      assert LayerOk(layer, rs);
      if length[layer] > 0 {
        flags := flags | L.Flag(layer);
        var tmm := TimeAt(layer, 0, rs, 0);
        last := FindLast(layer, rs, 0, last);
        var n := length[layer] / (GYRO_RECORD_SIZE + TIME_SIZE);
        assert n == |rs|;
        var step := AverageStep(tmm, last, n);
        var cp := Header(MAGIC, tmm / 1000 % U32_RANGE, 1, layer, step, tmm % 1000, 3 + 8 * (n % 0x800));
        pos := EmitLayer(layer, start, cp);
      }
    }

    method CopyTemperature(start: nat, lastIn: U64, flagsIn: bv8)
      returns (pos: nat, flags: bv8)
      requires Shape() && Holding()
      requires |recs[LAYER_TEMPERATURE]| < 0x1_0000
      requires start + LayerLength(LAYER_TEMPERATURE, |recs[LAYER_TEMPERATURE]|) <= PAGE_SIZE
      modifies work, length, count, this`recs
      ensures Holding() && recs == old(recs)[LAYER_TEMPERATURE := []]
      ensures pos == start + LayerLength(LAYER_TEMPERATURE, |old(recs[LAYER_TEMPERATURE])|)
      ensures work[..pos] == old(work[..start]) + OneHeaderImage(LAYER_TEMPERATURE, old(recs[LAYER_TEMPERATURE]), lastIn)
      ensures flags == if old(recs[LAYER_TEMPERATURE]) == [] then flagsIn else flagsIn | L.Flag(LAYER_TEMPERATURE)
    {
      pos, flags := start, flagsIn;
      ghost var rs := recs[LAYER_TEMPERATURE];
      assert LayerOk(LAYER_TEMPERATURE, rs);
      if length[LAYER_TEMPERATURE] > 0 {
        flags := flags | L.Flag(LAYER_TEMPERATURE);
        var tmm := TimeAt(LAYER_TEMPERATURE, 0, rs, 0);
        var last := FindLast(LAYER_TEMPERATURE, rs, 1, lastIn);
        var n := length[LAYER_TEMPERATURE] / (TEMPERATURE_RECORD_SIZE + TIME_SIZE);
        assert n == |rs|;
        var step := AverageStep(tmm, last, n);
        var cp := Header(MAGIC, tmm / 1000 % U32_RANGE, 1, LAYER_TEMPERATURE, step, tmm % 1000,
                         0x1_0000 * (n % 0x1_0000));
        pos := EmitLayer(LAYER_TEMPERATURE, start, cp);
      }
    }

    /** The first `k` layers are empty, the others as in `bufs`. */
    ghost predicate DrainedTo(bufs: seq<seq<Rec>>, k: nat)
      reads this`recs
    {
      |bufs| == |recs| == LAYER_MAX && forall l | 0 <= l < LAYER_MAX :: recs[l] == if l < k then [] else bufs[l]
    }

    /** What the copy loops have done after `k` layers of `bufs`. */
    ghost predicate Encoded(bufs: seq<seq<Rec>>, k: nat, pos: nat, last: U64, flags: bv8)
      requires Shape() && k <= LAYER_MAX
      reads this`recs, work, length, count, buffer
    {
      && Fits(bufs)
      && Holding()
      && DrainedTo(bufs, k)
      && pos <= PAGE_SIZE
      && EncodedAs(bufs, k, work[..pos], pos, last, flags)
    }

    /** One of the three ANTP layers: copy, set its flag, drain. */
    method EncodeAntp(ghost bufs: seq<seq<Rec>>, layer: nat, start: nat, lastIn: U64, flagsIn: bv8)
      returns (pos: nat, last: U64, flags: bv8)
      requires Shape() && layer < LAYER_ANTP_MAX && Encoded(bufs, layer, start, lastIn, flagsIn)
      modifies work, length, count, this`recs
      ensures Encoded(bufs, layer + 1, pos, last, flags)
    {
      RoomForLayer(bufs, layer);
      EncodedStep(bufs, layer, work[..start], start, lastIn, flagsIn);
      assert recs[layer] == bufs[layer];
      pos, last, flags := CopyAntp(layer, start, lastIn, flagsIn);
    }

    /** One of the two three-axis layers. */
    method EncodeDim3(ghost bufs: seq<seq<Rec>>, layer: nat, start: nat, lastIn: U64, flagsIn: bv8)
      returns (pos: nat, last: U64, flags: bv8)
      requires Shape() && LAYER_GYRO <= layer < LAYER_TEMPERATURE && Encoded(bufs, layer, start, lastIn, flagsIn)
      modifies work, length, count, this`recs
      ensures Encoded(bufs, layer + 1, pos, last, flags)
    {
      RoomForLayer(bufs, layer);
      EncodedStep(bufs, layer, work[..start], start, lastIn, flagsIn);
      assert recs[layer] == bufs[layer];
      pos, last, flags := CopyDim3(layer, start, lastIn, flagsIn);
    }

    /** The temperature layer; the last time it leaves behind is not used any more. */
    method EncodeTemperature(ghost bufs: seq<seq<Rec>>, start: nat, lastIn: U64, flagsIn: bv8)
      returns (pos: nat, flags: bv8)
      requires Shape() && Encoded(bufs, LAYER_TEMPERATURE, start, lastIn, flagsIn)
      modifies work, length, count, this`recs
      ensures Holding() && recs == L.EmptyBufs()
      ensures pos == TotalLength(bufs, LAYER_MAX) <= PAGE_SIZE && work[..pos] == PartialImage(bufs, LAYER_MAX)
      ensures flags == L.PageFlags(bufs, LAYER_MAX)
    {
      RoomForLayer(bufs, LAYER_TEMPERATURE);
      EncodedStep(bufs, LAYER_TEMPERATURE, work[..start], start, lastIn, flagsIn);
      assert recs[LAYER_TEMPERATURE] == bufs[LAYER_TEMPERATURE];
      pos, flags := CopyTemperature(start, lastIn, flagsIn);
    }

    /** The loop over the ANTP layers. */
    method EncodeAntpLayers(ghost bufs: seq<seq<Rec>>) returns (pos: nat, last: U64, flags: bv8)
      requires Shape() && Encoded(bufs, 0, 0, 0, 0)
      modifies work, length, count, this`recs
      ensures Encoded(bufs, LAYER_ANTP_MAX, pos, last, flags)
    {
      pos, last, flags := 0, 0, 0;
      for layer := 0 to LAYER_ANTP_MAX
        invariant Encoded(bufs, layer, pos, last, flags)
      {
        pos, last, flags := EncodeAntp(bufs, layer, pos, last, flags);
      }
    }

    /** The loop over gyro and accelerometer. */
    method EncodeDim3Layers(ghost bufs: seq<seq<Rec>>, start: nat, lastIn: U64, flagsIn: bv8)
      returns (pos: nat, last: U64, flags: bv8)
      requires Shape() && Encoded(bufs, LAYER_GYRO, start, lastIn, flagsIn)
      modifies work, length, count, this`recs
      ensures Encoded(bufs, LAYER_TEMPERATURE, pos, last, flags)
    {
      pos, last, flags := start, lastIn, flagsIn;
      for layer := LAYER_GYRO to LAYER_TEMPERATURE
        invariant Encoded(bufs, layer, pos, last, flags)
      {
        pos, last, flags := EncodeDim3(bufs, layer, pos, last, flags);
      }
    }

    /** Serialises all layers into the page buffer: ANTP, the three-axis layers, temperature. */
    method Encode() returns (pos: nat, flags: bv8)
      requires Shape() && Fits(recs) && Holding()
      modifies work, length, count, this`recs
      ensures pos == |PageImage(old(recs))| && work[..pos] == PageImage(old(recs))
      ensures flags == L.PageFlags(old(recs), LAYER_MAX)
      ensures Holding() && recs == L.EmptyBufs()
    {
      ghost var bufs := recs;
      var last;
      pos, last, flags := EncodeAntpLayers(bufs);
      pos, last, flags := EncodeDim3Layers(bufs, pos, last, flags);
      pos, flags := EncodeTemperature(bufs, pos, last, flags);
      PartialImageIsPage(bufs);
    }

    // ----- mxfs_flush

    /** The raw size mxfs_flush tests for 0 before doing anything. */
    method RawLength() returns (currentLength: nat)
      requires Shape() && Holding()
      ensures currentLength == 0 <==> AllEmpty(recs)
    {
      currentLength := 0;
      for n := 0 to LAYER_MAX
        invariant currentLength == 0 <==> forall l | 0 <= l < n :: recs[l] == []
      {
        assert LayerOk(n, recs[n]);
        currentLength := currentLength + count[n] * RecordSize(n);
      }
    }

    /** Lazy erase of the block at the cursor. */
    method EraseFirst(drv: L.Driver) returns (r: int)
      requires Shape() && flash.Valid() && currentBlock < BLOCK_COUNT
      modifies blocks, flash.blocks
      ensures flash.Valid()
      ensures blocks[..] == old(blocks[..])[currentBlock := old(blocks[currentBlock]).(invalid := false)]
      ensures r == if old(blocks[currentBlock]).invalid && !drv.eraseOk then ERR else OK
      ensures flash.Image() == if old(blocks[currentBlock]).invalid && drv.eraseOk
                               then L.Apply(old(flash.Image()), L.Erase(currentBlock)) else old(flash.Image())
    {
      r := OK;
      if blocks[currentBlock].invalid {
        blocks[currentBlock] := blocks[currentBlock].(invalid := false);
        r := flash.Erase(currentBlock, drv.eraseOk);
      }
    }

    /** Moves the cursor one page on; a block it enters is marked for erase. */
    method AdvanceCursor(flags: bv8)
      requires Shape() && flash.Valid() && currentBlock < BLOCK_COUNT && currentPage < PAGE_COUNT
      requires |blocks[currentBlock].pages| == PAGE_COUNT
      modifies this`currentBlock, this`currentPage, blocks
      ensures flash.Image() == old(flash.Image())
      ensures St() == L.Advance(old(St()), flags)
    {
      var pblock, ppage := currentBlock, currentPage;
      blocks[pblock] := blocks[pblock].(pages := blocks[pblock].pages[ppage := flags]);
      currentPage := currentPage + 1;
      if currentPage >= PAGE_COUNT {
        currentPage := 0;
        currentBlock := currentBlock + 1;
        if currentBlock >= BLOCK_COUNT {
          currentBlock := BLOCK_START_DATA_AREA;
        }
        blocks[currentBlock] := blocks[currentBlock].(invalid := true);
      }
    }

    /** The driver calls and the bookkeeping behind the encoded page. */
    method Commit(ghost s: L.State, pos: nat, flags: bv8, drv: L.Driver) returns (r: int)
      requires Shape() && flash.Valid() && L.WellFormed(s) && !AllEmpty(s.bufs)
      requires St() == s.(bufs := L.EmptyBufs())
      requires pos <= PAGE_SIZE && work[..pos] == PageImage(s.bufs) && flags == L.PageFlags(s.bufs, LAYER_MAX)
      modifies this`currentBlock, this`currentPage, blocks, flash.blocks
      ensures flash.Valid()
      ensures (St(), r) == L.Flush(s, drv)
    {
      r := EraseFirst(drv);
      if r != OK {
        assert L.ApplyAll(s.disk, []) == s.disk;
        return;
      }
      FlushDiskByCalls(s, drv);
      r := flash.Write(currentBlock, currentPage, work, pos, drv.programOk);
      if r == OK {
        AdvanceCursor(flags);
      }
    }

    /** mxfs_flush. */
    method Flush(drv: L.Driver) returns (r: int)
      requires Valid()
      modifies this, length, count, blocks, work, flash.blocks
      ensures Valid()
      ensures (St(), r) == L.Flush(old(St()), drv)
    {
      ghost var s := St();
      var currentLength := RawLength();
      if currentLength == 0 {
        return OK;
      }
      var pos, flags := Encode();
      r := Commit(s, pos, flags, drv);
      L.FlushWellFormed(s, drv);
    }

    // ----- mxfs_append

    /** What one layer adds to the encoded size. */
    static method AddLayer(layer: nat, count: nat, currentLength: nat) returns (r: nat)
      ensures r == currentLength + LayerLength(layer, count)
    {
      r := currentLength;
      if layer < LAYER_ANTP_MAX {
        r := r + count * ANTP_RECORD_SIZE;
        r := r + HEADER_SIZE * count;
      } else {
        r := r + count * RecordSize(layer);
        if count > 0 {
          r := r + HEADER_SIZE;
        }
      }
    }

    lemma LayerCount(l: nat)
      requires Shape() && Holding() && l < LAYER_MAX
      ensures count[l] == |recs[l]|
    {
      assert LayerOk(l, recs[l]);
    }

    /** The encoded size of what is buffered, computed from the counts alone. */
    method CurrentLength() returns (currentLength: nat)
      requires Shape() && Holding()
      ensures currentLength == TotalLength(recs, LAYER_MAX)
    {
      currentLength := 0;
      for n := 0 to LAYER_MAX
        invariant currentLength == TotalLength(recs, n)
      {
        LayerCount(n);
        currentLength := AddLayer(n, count[n], currentLength);
      }
    }

    /** Time and payload behind the bytes the layer already holds. */
    method StoreBytes(layer: nat, tmm: U64, bytes: seq<Byte>)
      requires Shape() && layer < LAYER_MAX == |recs| && LayerOk(layer, recs[layer])
      requires length[layer] + TIME_SIZE + |bytes| <= cap
      modifies buffer[layer]
      ensures buffer[layer][..length[layer] + TIME_SIZE + |bytes|] == Packed(recs[layer] + [Rec(tmm, bytes)])
    {
      ghost var packed := buffer[layer][..length[layer]];
      assert buffer[layer][..][..length[layer]] == packed;
      var lpos := length[layer];
      Copy(buffer[layer], lpos, Le64(tmm));
      lpos := lpos + TIME_SIZE;
      Copy(buffer[layer], lpos, bytes);
      PackedSnoc(recs[layer], Rec(tmm, bytes));
      Associative(packed, Le64(tmm), bytes);
    }

    /** Buffers one record: its bytes and the two counters. */
    method Store(layer: nat, tmm: U64, bytes: seq<Byte>)
      requires Shape() && Holding() && L.Accepts(layer, |bytes|)
      requires length[layer] + TIME_SIZE + |bytes| <= cap
      modifies this`recs, length, count, buffer[layer]
      ensures Holding() && recs == old(recs)[layer := old(recs[layer]) + [Rec(tmm, bytes)]]
    {
      ghost var lengths, counts, rs := length[..], count[..], recs[layer];
      assert LayerOk(layer, rs);
      assert forall l | 0 <= l < LAYER_MAX && l != layer ::
          LayerHolds(l, recs[l], counts[l], lengths[l], buffer[l][..]);
      StoreBytes(layer, tmm, bytes);
      StepProduct(|rs|, Stride(layer));
      length[layer] := length[layer] + TIME_SIZE;
      length[layer] := length[layer] + |bytes|;
      count[layer] := count[layer] + 1;
      recs := recs[layer := rs + [Rec(tmm, bytes)]];
      assert buffer[layer][..][..length[layer]] == buffer[layer][..length[layer]];
      forall l | 0 <= l < LAYER_MAX
        ensures LayerOk(l, recs[l])
      {
        assert l != layer ==> length[l] == lengths[l] && count[l] == counts[l];
      }
    }

    /** Zeroes the counters of a layer that is empty already. */
    method ZeroLayer(layer: nat)
      requires Shape() && Holding() && layer < LAYER_MAX && recs[layer] == []
      modifies length, count
      ensures Holding()
    {
      assert LayerOk(layer, recs[layer]);
      length[layer] := 0;
      count[layer] := 0;
      assert forall l | 0 <= l < LAYER_MAX :: LayerOk(l, recs[l]);
    }

    /** The auto-flush decision; the counters of the layer are zeroed once more behind the flush. */
    method FlushWhenFull(layer: nat, bytes: seq<Byte>, drv: L.Driver)
      requires Valid() && L.Accepts(layer, |bytes|)
      modifies this, length, count, blocks, work, flash.blocks
      ensures Valid()
      ensures St() == L.BeforeBuffering(old(St()), layer, |bytes|, drv)
    {
      var currentLength := CurrentLength();
      currentLength := currentLength + |bytes|;
      if currentLength > PAGE_SIZE - 64 {
        var _ := Flush(drv);
        ZeroLayer(layer);
      }
    }

    /** mxfs_append; the result of the flush is not looked at. */
    method Append(layer: nat, tmm: U64, bytes: seq<Byte>, drv: L.Driver) returns (r: int)
      requires Valid()
      modifies this, length, count, blocks, work, flash.blocks, buffer
      ensures Valid()
      ensures (St(), r) == L.Append(cap, old(St()), layer, tmm, bytes, drv)
    {
      if layer < LAYER_ANTP_MAX {
        if |bytes| != ANTP_RECORD_SIZE { return ERR; }
      } else if layer < LAYER_TEMPERATURE {
        if |bytes| != GYRO_RECORD_SIZE { return ERR; }
      } else if layer == LAYER_TEMPERATURE {
        if |bytes| != TEMPERATURE_RECORD_SIZE { return ERR; }
      } else {
        return ERR;
      }
      L.AppendWellFormed(cap, St(), layer, tmm, bytes, drv);
      FlushWhenFull(layer, bytes, drv);
      assert LayerOk(layer, recs[layer]);
      var lpos := length[layer];
      if lpos + TIME_SIZE + |bytes| > cap {
        return NEED_MORE_BUFFER;
      }
      Store(layer, tmm, bytes);
      r := OK;
    }

    /** mxfs_erase: straight to the driver, whose answer is passed on; cursor and index untouched. */
    method UserErase(block: nat, ok: bool) returns (r: int)
      requires Valid() && block < BLOCK_COUNT
      modifies flash.blocks
      ensures Valid() && r == (if ok then OK else ERR)
      ensures St() == Step(cap, old(St()), Runs.UserErase(block, ok))
    {
      ghost var d := flash.Image();
      r := flash.Erase(block, ok);
      ApplyOne(d, L.Erase(block));
    }
  }
}

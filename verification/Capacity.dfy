/** Page density and buffer capacity of mxfs_append. */
module Capacity {
  import opened Layout
  import opened PageFormat
  import opened PageEncoder
  import opened EraseDiscipline
  import L = LogFs

  function Stride(layer: nat): nat { TIME_SIZE + RecordSize(layer) }

  /** What each layer holds fits its buffer. */
  predicate Held(cap: nat, bufs: seq<seq<Rec>>)
  {
    forall l | 0 <= l < |bufs| :: |bufs[l]| * Stride(l) <= cap
  }

  lemma AppendKeepsHeld(cap: nat, s: L.State, layer: nat, time: U64, payload: seq<Byte>, drv: L.Driver)
    requires L.WellFormed(s) && Held(cap, s.bufs)
    ensures Held(cap, L.Append(cap, s, layer, time, payload, drv).0.bufs)
  {
    if L.Accepts(layer, |payload|) {
      StepProduct(|L.BeforeBuffering(s, layer, |payload|, drv).bufs[layer]|, Stride(layer));
    }
  }

  lemma StepProduct(n: nat, k: nat)
    ensures (n + 1) * k == n * k + k
  {
  }

  /** Density: a page written by an automatic flush is encoded in 1967 to 2000 bytes. */
  lemma AutoFlushDensity(s: L.State, layer: nat, length: nat)
    requires L.WellFormed(s) && L.FlushesNow(s, layer, length)
    ensures 1967 <= |PageImage(s.bufs)| <= 2000
  {
  }

  lemma RecordsPerPage(bufs: seq<seq<Rec>>, layer: nat)
    requires Fits(bufs) && layer < LAYER_MAX
    ensures layer < LAYER_ANTP_MAX ==> |bufs[layer]| <= 58
    ensures LAYER_ANTP_MAX <= layer < LAYER_TEMPERATURE ==> |bufs[layer]| <= 330
    ensures layer == LAYER_TEMPERATURE ==> |bufs[layer]| <= 992
  {
    LayerIsSmall(bufs, layer);
  }

  /** With the host's 16384-byte buffers a record is never refused for space. */
  lemma HostNeverFull(s: L.State, layer: nat, time: U64, payload: seq<Byte>, drv: L.Driver)
    requires L.WellFormed(s)
    ensures L.Append(16384, s, layer, time, payload, drv).1
            == if L.Accepts(layer, |payload|) then OK else ERR
  {
    if L.Accepts(layer, |payload|) {
      L.RoomForRecord(s, layer, |payload|, drv);
      RecordsPerPage(L.BeforeBuffering(s, layer, |payload|, drv).bufs, layer);
    }
  }

  /** With the RP2040's 8192-byte buffers only a temperature record can be refused, exactly when 819
      are buffered and the page is not yet full enough for an automatic flush. */
  lemma Rp2040FullIff(s: L.State, layer: nat, time: U64, payload: seq<Byte>, drv: L.Driver)
    requires L.WellFormed(s) && Held(8192, s.bufs)
    ensures L.Append(8192, s, layer, time, payload, drv).1 == NEED_MORE_BUFFER
            <==> && L.Accepts(layer, |payload|)
                 && layer == LAYER_TEMPERATURE
                 && |s.bufs[LAYER_TEMPERATURE]| == 819
                 && !L.MustFlush(s, |payload|)
  {
    if L.Accepts(layer, |payload|) {
      L.RoomForRecord(s, layer, |payload|, drv);
      RecordsPerPage(L.BeforeBuffering(s, layer, |payload|, drv).bufs, layer);
      assert |s.bufs[layer]| * Stride(layer) <= 8192;
    }
  }

  lemma PayloadBound(bufs: seq<seq<Rec>>, layer: nat)
    requires Fits(bufs) && layer < LAYER_MAX
    ensures |Payloads(bufs[layer])| <= 1984
  {
    PayloadsLength(layer, bufs[layer]);
    RecordsPerPage(bufs, layer);
  }

  lemma ImageReadBound(bufs: seq<seq<Rec>>, layer: nat, bufferLen: nat)
    requires Fits(bufs) && layer < LAYER_MAX
    ensures var page := Padded(PageImage(bufs)); ReadInBounds(page) && |ReadWalk(page, layer, bufferLen)| <= 1984
  {
    PageRoundTrip(bufs, layer, bufferLen, EMPTY_SPAN);
    PayloadBound(bufs, layer);
  }

  /** On every chip in order mxfs_read returns at most 1984 bytes for a layer of a page. */
  lemma ReadFitsBuffer(d: L.Disk, b: nat, p: nat, layer: nat, bufferLen: nat)
    requires DataOk(d) && BLOCK_START_DATA_AREA <= b < BLOCK_COUNT && p < PAGE_COUNT && layer < LAYER_MAX
    ensures ReadInBounds(d[b][p]) && |ReadWalk(d[b][p], layer, bufferLen)| <= 1984
  {
    assert BlockOk(d[b], AnyIndex());
    if Blank(d[b][p]) {
      BlankPageHasNoRecords(layer, bufferLen, EMPTY_SPAN);
    } else {
      var bufs :| Fits(bufs) && !AllEmpty(bufs) && d[b][p] == Padded(PageImage(bufs));
      ImageReadBound(bufs, layer, bufferLen);
    }
  }
}

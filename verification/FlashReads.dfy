/** What mxfs_read gets back from the flash after a flush, whatever page the flush programmed over:
    a program replaces the front of a page only, and a page has no length field. */
module FlashReads {
  import opened Layout
  import opened CompressHeader
  import opened PageFormat
  import opened PageEncoder
  import opened EraseDiscipline
  import L = LogFs

  /** No header of the chain makes mxfs_read copy anything. */
  predicate Silent(rest: seq<Byte>)
    requires ReadInBounds(rest)
    decreases |rest|
  {
    !HasMagic(rest)
    || var h := Unpack(rest);
       if h.kind < LAYER_CONFIG then CopyLength(h) == 0 && Silent(rest[HEADER_SIZE + SkipLength(h)..])
       else h.kind == LAYER_CONFIG || Silent(rest[HEADER_SIZE..])
  }

  /** mxfs_read returns nothing for any layer. */
  predicate ReadsNothing(rest: seq<Byte>, bufferLen: nat)
    requires ReadInBounds(rest)
  {
    forall l: nat | 0 <= l < LAYER_MAX :: ReadWalk(rest, l, bufferLen) == []
  }

  lemma ConcatEmpty<T>(a: seq<T>, b: seq<T>)
    ensures a + b == [] <==> a == [] && b == []
  {
    assert |a + b| == |a| + |b|;
  }

  /** A sensor header adds its own bytes to one layer in front of what the rest returns. */
  lemma SensorHeaderReads(rest: seq<Byte>, next: seq<Byte>, layer: nat, bufferLen: nat)
    requires ReadInBounds(rest) && HasMagic(rest) && Unpack(rest).kind < LAYER_CONFIG
    requires HEADER_SIZE + SkipLength(Unpack(rest)) <= |rest| && next == rest[HEADER_SIZE + SkipLength(Unpack(rest))..]
    ensures ReadInBounds(next)
    ensures ReadWalk(rest, layer, bufferLen) == []
            <==> (Unpack(rest).kind == layer ==> CopyLength(Unpack(rest)) == 0) && ReadWalk(next, layer, bufferLen) == []
  {
    var h := Unpack(rest);
    ReadStep(rest, layer, bufferLen);
    ConcatEmpty(if h.kind == layer then rest[HEADER_SIZE..HEADER_SIZE + CopyLength(h)] else [],
                ReadWalk(next, layer, bufferLen));
  }

  lemma SensorChainReads(rest: seq<Byte>, next: seq<Byte>, bufferLen: nat)
    requires ReadInBounds(rest) && HasMagic(rest) && Unpack(rest).kind < LAYER_CONFIG
    requires HEADER_SIZE + SkipLength(Unpack(rest)) <= |rest| && next == rest[HEADER_SIZE + SkipLength(Unpack(rest))..]
    ensures ReadInBounds(next)
    ensures ReadsNothing(rest, bufferLen) <==> CopyLength(Unpack(rest)) == 0 && ReadsNothing(next, bufferLen)
  {
    SensorHeaderReads(rest, next, 0, bufferLen);
    forall l: nat | 0 <= l < LAYER_MAX
      ensures ReadWalk(rest, l, bufferLen) == []
              <==> (Unpack(rest).kind == l ==> CopyLength(Unpack(rest)) == 0) && ReadWalk(next, l, bufferLen) == []
    {
      SensorHeaderReads(rest, next, l, bufferLen);
    }
    assert ReadWalk(rest, Unpack(rest).kind, bufferLen) == [] ==> CopyLength(Unpack(rest)) == 0;
  }

  /** A header no sensor layer uses adds nothing: configuration text ends the walk, others are stepped over. */
  lemma OtherHeaderReads(rest: seq<Byte>, layer: nat, bufferLen: nat)
    requires ReadInBounds(rest) && HasMagic(rest) && Unpack(rest).kind >= LAYER_CONFIG && layer < LAYER_MAX
    ensures Unpack(rest).kind == LAYER_CONFIG ==> ReadWalk(rest, layer, bufferLen) == []
    ensures Unpack(rest).kind > LAYER_CONFIG ==>
              && ReadInBounds(rest[HEADER_SIZE..])
              && ReadWalk(rest, layer, bufferLen) == ReadWalk(rest[HEADER_SIZE..], layer, bufferLen)
  {
  }

  lemma OtherChainReads(rest: seq<Byte>, bufferLen: nat)
    requires ReadInBounds(rest) && HasMagic(rest) && Unpack(rest).kind >= LAYER_CONFIG
    ensures Unpack(rest).kind == LAYER_CONFIG ==> ReadsNothing(rest, bufferLen)
    ensures Unpack(rest).kind > LAYER_CONFIG ==>
              && ReadInBounds(rest[HEADER_SIZE..])
              && (ReadsNothing(rest, bufferLen) <==> ReadsNothing(rest[HEADER_SIZE..], bufferLen))
  {
    OtherHeaderReads(rest, 0, bufferLen);
    forall l: nat | 0 <= l < LAYER_MAX
      ensures Unpack(rest).kind == LAYER_CONFIG ==> ReadWalk(rest, l, bufferLen) == []
      ensures Unpack(rest).kind > LAYER_CONFIG ==>
                ReadWalk(rest, l, bufferLen) == ReadWalk(rest[HEADER_SIZE..], l, bufferLen)
    {
      OtherHeaderReads(rest, l, bufferLen);
    }
  }

  lemma SilentStep(rest: seq<Byte>)
    requires ReadInBounds(rest) && HasMagic(rest)
    ensures |rest| >= HEADER_SIZE
    ensures var h := Unpack(rest);
            if h.kind < LAYER_CONFIG then
              && HEADER_SIZE + SkipLength(h) <= |rest|
              && ReadInBounds(rest[HEADER_SIZE + SkipLength(h)..])
              && (Silent(rest) <==> CopyLength(h) == 0 && Silent(rest[HEADER_SIZE + SkipLength(h)..]))
            else if h.kind == LAYER_CONFIG then Silent(rest)
            else ReadInBounds(rest[HEADER_SIZE..]) && (Silent(rest) <==> Silent(rest[HEADER_SIZE..]))
  {
  }

  /** The header-by-header guard says exactly that mxfs_read returns nothing. */
  lemma {:induction false} SilentIff(rest: seq<Byte>, bufferLen: nat)
    requires ReadInBounds(rest)
    ensures Silent(rest) <==> ReadsNothing(rest, bufferLen)
    decreases |rest|
  {
    if HasMagic(rest) {
      SilentStep(rest);
      var h := Unpack(rest);
      if h.kind < LAYER_CONFIG {
        SilentIff(rest[HEADER_SIZE + SkipLength(h)..], bufferLen);
        SensorChainReads(rest, rest[HEADER_SIZE + SkipLength(h)..], bufferLen);
      } else {
        OtherChainReads(rest, bufferLen);
        if h.kind > LAYER_CONFIG {
          SilentIff(rest[HEADER_SIZE..], bufferLen);
        }
      }
    }
  }

  /** One sound chunk in front of any bytes. */
  lemma ReadOverChunk(c: Chunk, more: seq<Byte>, layer: nat, bufferLen: nat)
    requires Sound(c)
    ensures var all := Pack(c.header) + c.payload + more;
            && (ReadInBounds(all) <==> ReadInBounds(more))
            && (ReadInBounds(more) ==>
                  ReadWalk(all, layer, bufferLen)
                  == (if c.header.kind == layer then c.payload else []) + ReadWalk(more, layer, bufferLen))
  {
    HeadOfSerialized(c, more);
    var all := Pack(c.header) + c.payload + more;
    if ReadInBounds(more) {
      ReadStep(all, layer, bufferLen);
    }
  }

  /** mxfs_read over chunks in front of any bytes: it is in bounds iff it is on those bytes, and returns
      the chunks' payloads and then whatever those bytes hold. */
  lemma {:induction false} ReadOverChunks(cs: seq<Chunk>, tail: seq<Byte>, layer: nat, bufferLen: nat)
    requires AllSound(cs)
    ensures var all := Serialize(cs) + tail;
            && (ReadInBounds(all) <==> ReadInBounds(tail))
            && (ReadInBounds(tail) ==>
                  ReadWalk(all, layer, bufferLen) == PayloadOf(cs, layer) + ReadWalk(tail, layer, bufferLen))
    decreases |cs|
  {
    if cs == [] {
      EmptyIsNeutral(tail);
      if ReadInBounds(tail) {
        EmptyIsNeutral(ReadWalk(tail, layer, bufferLen));
      }
    } else {
      var c, more := cs[0], Serialize(cs[1..]) + tail;
      ReadOverChunks(cs[1..], tail, layer, bufferLen);
      ReadOverChunk(c, more, layer, bufferLen);
      Associative(Pack(c.header) + c.payload, Serialize(cs[1..]), tail);
      if ReadInBounds(tail) {
        Associative(if c.header.kind == layer then c.payload else [], PayloadOf(cs[1..], layer),
                    ReadWalk(tail, layer, bufferLen));
      }
    }
  }

  lemma ReadOverImage(bufs: seq<seq<Rec>>, tail: seq<Byte>, layer: nat, bufferLen: nat)
    requires Fits(bufs) && layer < LAYER_MAX
    ensures var page := PageImage(bufs) + tail;
            && (ReadInBounds(page) <==> ReadInBounds(tail))
            && (ReadInBounds(tail) ==>
                  ReadWalk(page, layer, bufferLen) == Payloads(bufs[layer]) + ReadWalk(tail, layer, bufferLen))
  {
    ChunksOfSound(bufs, LAYER_MAX);
    ChunksOfPayload(bufs, LAYER_MAX, layer);
    ReadOverChunks(ChunksOf(bufs, LAYER_MAX), tail, layer, bufferLen);
  }

  // ----- one flush

  /** The bytes of the target page behind the image the pending flush programs. */
  function Leftover(s: L.State): seq<Byte>
    requires L.WellFormed(s)
  {
    TargetBlock(s)[s.page][|PageImage(s.bufs)|..]
  }

  /** The page at the old cursor after the flush. */
  function PageAfter(s: L.State, drv: L.Driver): seq<Byte>
    requires L.WellFormed(s)
  {
    L.FlushWellFormed(s, drv);
    L.Flush(s, drv).0.disk[s.block][s.page]
  }

  lemma PageOfFlush(s: L.State, drv: L.Driver)
    requires L.WellFormed(s) && !AllEmpty(s.bufs) && DriverServes(s, drv)
    ensures PageAfter(s, drv) == PageImage(s.bufs) + Leftover(s)
  {
    FlushDisk(s, drv);
  }

  /** What mxfs_read returns from the flash after a served flush: the buffered payloads, and behind them
      whatever it makes of the bytes the flush left over. */
  lemma FlushedPageReads(s: L.State, drv: L.Driver, layer: nat)
    requires L.WellFormed(s) && !AllEmpty(s.bufs) && DriverServes(s, drv) && layer < LAYER_MAX
    ensures ReadInBounds(PageAfter(s, drv)) <==> ReadInBounds(Leftover(s))
    ensures ReadInBounds(Leftover(s)) ==>
              LayerBytes(PageAfter(s, drv), layer) == Payloads(s.bufs[layer]) + LayerBytes(Leftover(s), layer)
  {
    PageOfFlush(s, drv);
    ReadOverImage(s.bufs, Leftover(s), layer, PAGE_SIZE);
  }

  /** mxfs_read stays inside the page and returns exactly the buffered payloads, for every layer. */
  predicate ReadsBack(page: seq<Byte>, bufs: seq<seq<Rec>>)
    requires |bufs| == LAYER_MAX
  {
    ReadInBounds(page) && forall l: nat | 0 <= l < LAYER_MAX :: LayerBytes(page, l) == Payloads(bufs[l])
  }

  lemma LengthZero<T>(a: seq<T>, b: seq<T>)
    ensures a + b == a <==> b == []
  {
    assert |a + b| == |a| + |b|;
    EmptyIsNeutral(a);
  }

  lemma LayerReadsBackIff(s: L.State, drv: L.Driver, layer: nat)
    requires L.WellFormed(s) && !AllEmpty(s.bufs) && DriverServes(s, drv) && layer < LAYER_MAX
    requires ReadInBounds(Leftover(s))
    ensures ReadInBounds(PageAfter(s, drv))
    ensures LayerBytes(PageAfter(s, drv), layer) == Payloads(s.bufs[layer])
            <==> ReadWalk(Leftover(s), layer, PAGE_SIZE) == []
  {
    FlushedPageReads(s, drv, layer);
    LengthZero(Payloads(s.bufs[layer]), ReadWalk(Leftover(s), layer, PAGE_SIZE));
  }

  lemma ReadsBackIffNothing(page: seq<Byte>, bufs: seq<seq<Rec>>, rest: seq<Byte>)
    requires |bufs| == LAYER_MAX && ReadInBounds(page) && ReadInBounds(rest)
    requires forall l: nat | 0 <= l < LAYER_MAX ::
               LayerBytes(page, l) == Payloads(bufs[l]) <==> ReadWalk(rest, l, PAGE_SIZE) == []
    ensures ReadsBack(page, bufs) <==> ReadsNothing(rest, PAGE_SIZE)
  {
  }

  /** The page of a served flush reads back exactly what was buffered iff the bytes the flush leaves over
      from its target page form no chain that copies anything. */
  lemma FlushReadsBackIff(s: L.State, drv: L.Driver)
    requires L.WellFormed(s) && !AllEmpty(s.bufs) && DriverServes(s, drv)
    ensures ReadsBack(PageAfter(s, drv), s.bufs) <==> ReadInBounds(Leftover(s)) && Silent(Leftover(s))
  {
    FlushedPageReads(s, drv, 0);
    if ReadInBounds(Leftover(s)) {
      forall l: nat | 0 <= l < LAYER_MAX
        ensures LayerBytes(PageAfter(s, drv), l) == Payloads(s.bufs[l]) <==> ReadWalk(Leftover(s), l, PAGE_SIZE) == []
      {
        LayerReadsBackIff(s, drv, l);
      }
      ReadsBackIffNothing(PageAfter(s, drv), s.bufs, Leftover(s));
      SilentIff(Leftover(s), PAGE_SIZE);
    }
  }

  /** The bytes begin with a header that copies at least one record: so do the pages mxfs_flush writes at
      every header. */
  predicate BeginsWithRecords(rest: seq<Byte>)
  {
    |rest| >= HEADER_SIZE && HasMagic(rest) && Unpack(rest).kind < LAYER_MAX && CopyLength(Unpack(rest)) > 0
  }

  /** Where the left-over bytes carry no MAGIC or begin at a header of an earlier flush, the MAGIC alone
      decides. */
  lemma FlushReadsBackIffNoMagic(s: L.State, drv: L.Driver)
    requires L.WellFormed(s) && !AllEmpty(s.bufs) && DriverServes(s, drv)
    requires HasMagic(Leftover(s)) ==> BeginsWithRecords(Leftover(s))
    ensures ReadsBack(PageAfter(s, drv), s.bufs) <==> !HasMagic(Leftover(s))
  {
    FlushReadsBackIff(s, drv);
  }

  lemma BlankLeftover(s: L.State)
    requires L.WellFormed(s) && Blank(TargetBlock(s)[s.page])
    ensures !HasMagic(Leftover(s)) && ReadInBounds(Leftover(s))
  {
    assert Leftover(s)[0] == 0xFF;
  }

  /** On a chip in order a served flush reads back from the flash. */
  lemma FlushReadsBackInOrder(s: L.State, drv: L.Driver)
    requires Inv(s) && !AllEmpty(s.bufs) && DriverServes(s, drv)
    ensures ReadsBack(PageAfter(s, drv), s.bufs)
  {
    TargetIsBlank(s);
    BlankLeftover(s);
    FlushReadsBackIff(s, drv);
  }

  /** What mxfs_read returns from the page at the old cursor, with what is still buffered, is what was
      buffered before the flush. */
  predicate KeptOnFlash(s: L.State, drv: L.Driver)
    requires L.WellFormed(s)
  {
    forall l: nat | 0 <= l < LAYER_MAX ::
      LayerBytes(PageAfter(s, drv), l) + Payloads(L.Flush(s, drv).0.bufs[l]) == Payloads(s.bufs[l])
  }

  lemma UnservedPageIsBlank(s: L.State, drv: L.Driver)
    requires Inv(s) && !AllEmpty(s.bufs) && !EraseRefused(s, drv) && !DriverServes(s, drv)
    ensures Blank(PageAfter(s, drv))
  {
    TargetIsBlank(s);
    if s.status[s.block].invalid && !drv.eraseOk {
      assert L.ApplyAll(s.disk, []) == s.disk;
    } else {
      FlushDisk(s, drv);
    }
  }

  /** Loss, judged on the flash: on a chip in order, with records buffered and no due erase refused over
      data, everything survives iff the driver serves the flush. */
  lemma KeptOnFlashIff(s: L.State, drv: L.Driver)
    requires Inv(s) && !AllEmpty(s.bufs) && !EraseRefused(s, drv)
    ensures KeptOnFlash(s, drv) <==> DriverServes(s, drv)
  {
    if DriverServes(s, drv) {
      FlushReadsBackInOrder(s, drv);
      forall l: nat | 0 <= l < LAYER_MAX
        ensures LayerBytes(PageAfter(s, drv), l) + Payloads(L.Flush(s, drv).0.bufs[l]) == Payloads(s.bufs[l])
      {
        EmptyIsNeutral(Payloads(s.bufs[l]));
        assert Payloads(L.Flush(s, drv).0.bufs[l]) == [];
      }
    } else {
      UnservedPageIsBlank(s, drv);
      var l: nat :| 0 <= l < LAYER_MAX && s.bufs[l] != [];
      PayloadsEmptyIff(l, s.bufs[l]);
      BlankPageHasNoRecords(l, PAGE_SIZE, EMPTY_SPAN);
      assert Payloads(L.Flush(s, drv).0.bufs[l]) == [];
    }
  }
}

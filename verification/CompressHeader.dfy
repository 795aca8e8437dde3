/** The packed 16-byte `compress_t` header (sw/child/inc/mxfs_def.h:148-174):
    four little-endian words, the third one a bit field, the fourth a union. */
module CompressHeader {
  import opened Layout

  // `detail` is the raw 32-bit union; its three readings are below.
  datatype Header = Header(
    magic: U32, time: U32, comp: nat, kind: nat, step: nat, msec: nat, detail: U32)

  predicate FieldsFit(h: Header)
  {
    h.comp < 2 && h.kind < 32 && h.step < 0x1_0000 && h.msec < 0x400
  }

  function AntLength(h: Header): nat { h.detail % 0x200 }
  function GyrCount(h: Header): nat { h.detail / 8 % 0x800 }
  function TmpBase(h: Header): nat { h.detail % 0x1_0000 }
  function TmpCount(h: Header): nat { h.detail / 0x1_0000 }

  function Pack(h: Header): (bytes: seq<Byte>)
    requires FieldsFit(h)
    ensures |bytes| == HEADER_SIZE
  {
    Le32(h.magic) + Le32(h.time)
    + Le32(h.comp + 2 * h.kind + 0x40 * h.step + 0x40_0000 * h.msec)
    + Le32(h.detail)
  }

  function WordAt(b: seq<Byte>, i: nat): U32
    requires i + 4 <= |b|
  {
    FromLe32(b[i], b[i + 1], b[i + 2], b[i + 3])
  }

  function Unpack(b: seq<Byte>): Header
    requires |b| >= HEADER_SIZE
  {
    var w := WordAt(b, 8);
    Header(WordAt(b, 0), WordAt(b, 4),
           w % 2, w / 2 % 0x20, w / 0x40 % 0x1_0000, w / 0x40_0000, WordAt(b, 12))
  }

  lemma BitFieldRoundTrip(comp: nat, kind: nat, step: nat, msec: nat)
    requires comp < 2 && kind < 32 && step < 0x1_0000 && msec < 0x400
    ensures var w := comp + 2 * kind + 0x40 * step + 0x40_0000 * msec;
            w % 2 == comp && w / 2 % 0x20 == kind && w / 0x40 % 0x1_0000 == step && w / 0x40_0000 == msec
  {
    var w := comp + 2 * kind + 0x40 * step + 0x40_0000 * msec;
    assert w / 2 == kind + 0x20 * (step + 0x1_0000 * msec);
    assert w / 0x40 == step + 0x1_0000 * msec;
  }

  lemma WordAtLe32(before: seq<Byte>, w: U32, after: seq<Byte>)
    ensures WordAt(before + Le32(w) + after, |before|) == w
  {
    var b, n := before + Le32(w) + after, |before|;
    assert forall i | 0 <= i < 4 :: b[n + i] == Le32(w)[i];
    FromLe32OfLe32(w);
  }

  /** Reading back the header that was packed, whatever follows it. */
  lemma UnpackOfPack(h: Header, rest: seq<Byte>)
    requires FieldsFit(h)
    ensures Unpack(Pack(h) + rest) == h
  {
    var w := h.comp + 2 * h.kind + 0x40 * h.step + 0x40_0000 * h.msec;
    var b := Pack(h) + rest;
    WordAtLe32([], h.magic, b[4..]);
    assert b == [] + Le32(h.magic) + b[4..];
    WordAtLe32(b[..4], h.time, b[8..]);
    assert b == b[..4] + Le32(h.time) + b[8..];
    WordAtLe32(b[..8], w, b[12..]);
    assert b == b[..8] + Le32(w) + b[12..];
    WordAtLe32(b[..12], h.detail, b[16..]);
    assert b == b[..12] + Le32(h.detail) + b[16..];
    BitFieldRoundTrip(h.comp, h.kind, h.step, h.msec);
  }

  /** Every 16 bytes are the packing of what they decode to, so the header
      layout loses no bit and leaves none undefined. */
  lemma PackOfUnpack(b: seq<Byte>)
    requires |b| == HEADER_SIZE
    ensures FieldsFit(Unpack(b)) && Pack(Unpack(b)) == b
  {
    forall i | i in [0, 4, 8, 12]
      ensures Le32(WordAt(b, i)) == b[i..i + 4]
    {
      Le32OfFromLe32(b[i], b[i + 1], b[i + 2], b[i + 3]);
    }
    assert 0 in [0, 4, 8, 12] && 4 in [0, 4, 8, 12] && 8 in [0, 4, 8, 12] && 12 in [0, 4, 8, 12];
    BitFieldSplit(WordAt(b, 8));
    assert b == b[0..4] + b[4..8] + b[8..12] + b[12..16];
  }

  lemma BitFieldSplit(w: U32)
    ensures w % 2 + 2 * (w / 2 % 0x20) + 0x40 * (w / 0x40 % 0x1_0000) + 0x40_0000 * (w / 0x40_0000) == w
    ensures w / 0x40_0000 < 0x400
  {
    assert w / 2 / 0x20 == w / 0x40;
    assert w / 0x40 / 0x1_0000 == w / 0x40_0000;
  }

  lemma Le32OfFromLe32(b0: Byte, b1: Byte, b2: Byte, b3: Byte)
    ensures Le32(FromLe32(b0, b1, b2, b3)) == [b0, b1, b2, b3]
  {
    var w := FromLe32(b0, b1, b2, b3);
    assert w / 0x100 == b1 + 0x100 * b2 + 0x1_0000 * b3;
    assert w / 0x1_0000 == b2 + 0x100 * b3;
    assert w / 0x100_0000 == b3;
  }
}

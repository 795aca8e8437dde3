/** Constants, integer widths and little-endian byte order of the child's file
    system (sw/child/inc/mxfs_def.h). */
module Layout {

  type Byte = x: int | 0 <= x < 256
  type U32 = x: int | 0 <= x < 0x1_0000_0000
  type U64 = x: int | 0 <= x < 0x1_0000_0000_0000_0000

  const U32_RANGE: int := 0x1_0000_0000
  const U64_RANGE: int := 0x1_0000_0000_0000_0000

  const OK: int := 0
  const ERR: int := -1
  const NEED_MORE_BUFFER: int := -2

  const MAGIC: int := 0xdeadc0de
  const PAGE_SIZE: int := 2048
  const BLOCK_COUNT: int := 1024
  const PAGE_COUNT: int := 64
  const BLOCK_START_DATA_AREA: int := 1
  const ANTP_RECORD_SIZE: int := 18
  const GYRO_RECORD_SIZE: int := 6
  const TEMPERATURE_RECORD_SIZE: int := 2
  const HEADER_SIZE: int := 16
  const TIME_SIZE: int := 8

  // The layers 0, 1, 2 are ANTP (speed, power, cadence), 3 is gyro,
  // 4 is accelerometer, 5 is temperature; 6 marks configuration text.
  const LAYER_ANTP_MAX: int := 3
  const LAYER_GYRO: int := 3
  const LAYER_TEMPERATURE: int := 5
  const LAYER_MAX: int := 6
  const LAYER_CONFIG: int := 6

  function RecordSize(layer: nat): nat
  {
    if layer < LAYER_ANTP_MAX then ANTP_RECORD_SIZE
    else if layer < LAYER_TEMPERATURE then GYRO_RECORD_SIZE
    else TEMPERATURE_RECORD_SIZE
  }

  function Min(a: int, b: int): int
  {
    if a < b then a else b
  }

  /** memset: `n` copies of one value. */
  function Repeat<T>(x: T, n: nat): (s: seq<T>)
    ensures |s| == n && forall i | 0 <= i < n :: s[i] == x
  {
    seq(n, i => x)
  }

  /** A 32-bit word as memory holds it, least significant byte first. */
  function Le32(w: U32): (bytes: seq<Byte>)
    ensures |bytes| == 4
  {
    [w % 0x100, w / 0x100 % 0x100, w / 0x1_0000 % 0x100, w / 0x100_0000]
  }

  function FromLe32(b0: Byte, b1: Byte, b2: Byte, b3: Byte): U32
  {
    b0 + 0x100 * b1 + 0x1_0000 * b2 + 0x100_0000 * b3
  }

  function Le64(t: U64): (bytes: seq<Byte>)
    ensures |bytes| == 8
  {
    Le32(t % 0x1_0000_0000) + Le32(t / 0x1_0000_0000)
  }

  function ReadLe64(b: seq<Byte>): U64
    requires |b| >= 8
  {
    FromLe32(b[0], b[1], b[2], b[3]) + 0x1_0000_0000 * FromLe32(b[4], b[5], b[6], b[7])
  }

  lemma FromLe32OfLe32(w: U32)
    ensures FromLe32(Le32(w)[0], Le32(w)[1], Le32(w)[2], Le32(w)[3]) == w
  {
    var q := w / 0x100;
    assert w == 0x100 * q + w % 0x100;
    assert q == 0x100 * (q / 0x100) + q % 0x100;
    assert q / 0x100 == w / 0x1_0000;
    var r := w / 0x1_0000;
    assert r == 0x100 * (r / 0x100) + r % 0x100;
    assert r / 0x100 == w / 0x100_0000;
  }

  lemma ReadLe64OfLe64(t: U64, tail: seq<Byte>)
    ensures ReadLe64(Le64(t) + tail) == t
  {
    FromLe32OfLe32(t % 0x1_0000_0000);
    FromLe32OfLe32(t / 0x1_0000_0000);
  }

  lemma EmptyIsNeutral<T>(s: seq<T>)
    ensures s + [] == s && [] + s == s
  {
  }

  lemma Associative<T>(a: seq<T>, b: seq<T>, c: seq<T>)
    ensures (a + b) + c == a + (b + c)
  {
  }

  lemma TailOfConcat<T>(a: seq<T>, b: seq<T>)
    requires |a| > 0
    ensures (a + b)[0] == a[0] && (a + b)[1..] == a[1..] + b
  {
  }
}

/** Fixed-width integers and the little-endian byte order used by `binary.LittleEndian`
    (main.go reads each array element with `binary.LittleEndian.Uint32` and converts it to `int32`). */
module LittleEndian {

  /** One byte of raw memory. */
  newtype byte = x: int | 0 <= x < 0x100

  /** A signed 32-bit integer, as Go's `int32`. */
  newtype int32 = x: int | -0x8000_0000 <= x < 0x8000_0000

  const TwoTo32: int := 0x1_0000_0000

  /** `binary.LittleEndian.Uint32`: the first four bytes, least significant first.
      Bytes after the fourth are never read; fewer than four is a panic in Go, hence the requires. */
  function Uint32(b: seq<byte>): (u: nat)
    requires |b| >= 4
    ensures u < TwoTo32
  {
    b[0] as int + 0x100 * b[1] as int + 0x1_0000 * b[2] as int + 0x100_0000 * b[3] as int
  }

  /** Go's `int32(u)` conversion of a `uint32`: the two's-complement reinterpretation,
      i.e. the unique int32 congruent to `u` modulo 2^32. */
  function ToInt32(u: nat): (v: int32)
    requires u < TwoTo32
    ensures (v as int - u) % TwoTo32 == 0
    ensures 0 <= v as int <==> u < 0x8000_0000
  {
    if u < 0x8000_0000 then u as int32 else (u - TwoTo32) as int32
  }

  /** The int32 held little-endian in the first four bytes of `b`. */
  function DecodeInt32(b: seq<byte>): (v: int32)
    requires |b| >= 4
    ensures v < 0 <==> b[3] >= 0x80
    ensures v as int == Uint32(b) - (if b[3] >= 0x80 then TwoTo32 else 0)
  {
    ToInt32(Uint32(b))
  }

  /** The four bytes that store `v` little-endian (the inverse of DecodeInt32). */
  function EncodeInt32(v: int32): (b: seq<byte>)
    ensures |b| == 4
  {
    var u := v as int % TwoTo32;
    [(u % 0x100) as byte, (u / 0x100 % 0x100) as byte,
     (u / 0x100 / 0x100 % 0x100) as byte, (u / 0x100 / 0x100 / 0x100) as byte]
  }

  /** Decoding what was encoded gives the value back. */
  lemma DecodeEncode(v: int32)
    ensures DecodeInt32(EncodeInt32(v)) == v
  {
    var u := v as int % TwoTo32;
    var q1 := u / 0x100;
    var q2 := q1 / 0x100;
    var q3 := q2 / 0x100;
    assert u == u % 0x100 + 0x100 * q1;
    assert q1 == q1 % 0x100 + 0x100 * q2;
    assert q2 == q2 % 0x100 + 0x100 * q3;
    assert Uint32(EncodeInt32(v)) == u;
  }

  /** Encoding what was decoded gives the four bytes back: every 4-byte pattern is some int32. */
  lemma EncodeDecode(b: seq<byte>)
    requires |b| == 4
    ensures EncodeInt32(DecodeInt32(b)) == b
  {
    var u := Uint32(b);
    assert DecodeInt32(b) as int % TwoTo32 == u;
    var hi := b[1] as int + 0x100 * b[2] as int + 0x1_0000 * b[3] as int;
    var mid := b[2] as int + 0x100 * b[3] as int;
    assert u == b[0] as int + 0x100 * hi;
    SplitLowByte(b[0] as int, hi);
    SplitLowByte(b[1] as int, mid);
    SplitLowByte(b[2] as int, b[3] as int);
  }

  /** Splitting off the least significant byte of `low + 256 * high`. */
  lemma SplitLowByte(low: int, high: nat)
    requires 0 <= low < 0x100
    ensures (low + 0x100 * high) % 0x100 == low
    ensures (low + 0x100 * high) / 0x100 == high
  {
  }

  /** Only the first four bytes are read. */
  lemma DecodeReadsFourBytes(b: seq<byte>, c: seq<byte>)
    requires |b| >= 4 && |c| >= 4
    requires b[..4] == c[..4]
    ensures DecodeInt32(b) == DecodeInt32(c)
  {
    assert b[0] == c[0] && b[1] == c[1] && b[2] == c[2] && b[3] == c[3] by {
      assert b[..4][0] == b[0] && b[..4][1] == b[1] && b[..4][2] == b[2] && b[..4][3] == b[3];
    }
  }
}

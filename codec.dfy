/**
 * Fixed-width integers and the 8-byte little-endian codec that the
 * watermark store uses (Go's int64/uint64 conversions and
 * encoding/binary's LittleEndian.PutUint64 / LittleEndian.Uint64).
 */
module Codec {

  const TwoTo63: int := 0x8000_0000_0000_0000
  const TwoTo64: int := 0x1_0000_0000_0000_0000

  /** Go's int64: Unix seconds as `time.Time.Unix()` returns them. */
  type Int64 = x: int | -0x8000_0000_0000_0000 <= x < 0x8000_0000_0000_0000

  /** Go's byte. */
  type byte = x: int | 0 <= x < 256

  /** Go's uint64. */
  type Uint64 = x: int | 0 <= x < 0x1_0000_0000_0000_0000

  /** The conversion `uint64(t)`: the same 64 bits read as an unsigned number. */
  function ToUnsigned(t: Int64): (u: Uint64)
    ensures (u - t) % TwoTo64 == 0
    ensures 0 <= t ==> u == t
  {
    if t >= 0 then t else t + TwoTo64
  }

  /** The conversion `int64(u)`: the same 64 bits read as a two's-complement number. */
  function ToSigned(u: Uint64): (t: Int64)
    ensures (u - t) % TwoTo64 == 0
    ensures u < TwoTo63 ==> t == u
  {
    if u < TwoTo63 then u else u - TwoTo64
  }

  /** The two conversions undo each other, so no Int64 is lost on its way through a Uint64. */
  lemma CastRoundTrip(t: Int64, u: Uint64)
    ensures ToSigned(ToUnsigned(t)) == t
    ensures ToUnsigned(ToSigned(u)) == u
  {
  }

  function Pow256(n: nat): (p: nat)
    ensures p > 0
  {
    if n == 0 then 1 else 256 * Pow256(n - 1)
  }

  /** The n-byte little-endian encoding of v (modulo 256^n): byte i holds base-256 digit i of v. */
  function LittleEndian(v: nat, n: nat): (b: seq<byte>)
    ensures |b| == n
  {
    if n == 0 then [] else [(v % 256)] + LittleEndian(v / 256, n - 1)
  }

  /** The number whose little-endian base-256 digits are the bytes of b. */
  function FromLittleEndian(b: seq<byte>): (v: nat)
    ensures v < Pow256(|b|)
  {
    if b == [] then 0 else b[0] + 256 * FromLittleEndian(b[1..])
  }

  lemma DigitSplit(v: nat)
    ensures v / 256 * 256 + v % 256 == v
  {
  }

  lemma DivBound(v: nat, p: nat)
    requires v < 256 * p
    ensures v / 256 < p
  {
  }

  lemma DigitJoin(d: nat, r: nat)
    requires d < 256
    ensures (d + 256 * r) % 256 == d && (d + 256 * r) / 256 == r
  {
  }

  /** Decoding an encoding gives back the number, whenever it fits in n bytes. */
  lemma {:induction false} DecodeEncode(v: nat, n: nat)
    requires v < Pow256(n)
    ensures FromLittleEndian(LittleEndian(v, n)) == v
  {
    if n > 0 {
      var high := v / 256;
      var low := v % 256;
      DivBound(v, Pow256(n - 1));
      DecodeEncode(high, n - 1);
      var b := LittleEndian(v, n);
      assert b == [low] + LittleEndian(high, n - 1);
      assert b[1..] == LittleEndian(high, n - 1);
      assert b[0] == low;
      assert FromLittleEndian(b) == low + 256 * high;
      DigitSplit(v);
    }
  }

  /** Encoding a decoded byte string gives back the same bytes. */
  lemma {:induction false} EncodeDecode(b: seq<byte>)
    ensures LittleEndian(FromLittleEndian(b), |b|) == b
  {
    if b != [] {
      var rest := FromLittleEndian(b[1..]);
      var v := FromLittleEndian(b);
      assert v == b[0] + 256 * rest;
      DigitJoin(b[0], rest);
      EncodeDecode(b[1..]);
      assert (v % 256) == b[0];
      assert LittleEndian(v, |b|) == [b[0]] + LittleEndian(rest, |b| - 1);
    }
  }

  lemma Pow256Of8()
    ensures Pow256(8) == TwoTo64
  {
  }

  /**
   * binary.LittleEndian.PutUint64: stores the 8 little-endian bytes of v
   * in buf[0..8], in place, leaving the rest of buf alone. Go panics on a
   * buffer shorter than 8 bytes; every caller allocates exactly 8.
   */
  method PutUint64(buf: array<byte>, v: Uint64)
    requires buf.Length >= 8
    modifies buf
    ensures buf[..8] == LittleEndian(v, 8)
    ensures buf[8..] == old(buf[8..])
  {
    var rest: nat := v;
    for i := 0 to 8
      invariant buf[..i] + LittleEndian(rest, 8 - i) == LittleEndian(v, 8)
      invariant buf[8..] == old(buf[8..])
    {
      assert LittleEndian(rest, 8 - i) == [(rest % 256)] + LittleEndian(rest / 256, 8 - i - 1);
      buf[i] := (rest % 256);
      assert buf[..i + 1] == buf[..i] + [(rest % 256)];
      rest := rest / 256;
    }
  }

  /**
   * binary.LittleEndian.Uint64: the unsigned number held in the first 8
   * bytes of b; b must have at least 8 bytes (Go panics otherwise).
   */
  function ReadUint64(b: seq<byte>): (u: Uint64)
    requires |b| >= 8
    ensures LittleEndian(u, 8) == b[..8]
  {
    Pow256Of8();
    EncodeDecode(b[..8]);
    FromLittleEndian(b[..8])
  }

  /** The stored form of a watermark: `PutUint64(buf, uint64(t))` into an 8-byte buffer. */
  function EncodeWatermark(t: Int64): (b: seq<byte>)
    ensures |b| == 8
  {
    LittleEndian(ToUnsigned(t), 8)
  }

  /** The watermark read back from a stored value: `int64(ReadUint64(b))`. */
  function DecodeWatermark(b: seq<byte>): (t: Int64)
    requires |b| >= 8
    ensures EncodeWatermark(t) == b[..8]
  {
    CastRoundTrip(0, ReadUint64(b));
    ToSigned(ReadUint64(b))
  }

  /** Every Int64 timestamp, negative ones included, survives a store round trip. */
  lemma WatermarkRoundTrip(t: Int64)
    ensures DecodeWatermark(EncodeWatermark(t)) == t
  {
    Pow256Of8();
    var b := EncodeWatermark(t);
    DecodeEncode(ToUnsigned(t), 8);
    assert b[..8] == b;
    assert ReadUint64(b) == ToUnsigned(t);
    CastRoundTrip(t, 0);
  }
}

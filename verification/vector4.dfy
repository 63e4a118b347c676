/** Vector4: four f32 components, each an opaque 4-byte word. */
module Vectors {
  import opened Wrappers
  import opened Bytes

  datatype Vector4 = Vector4(x: f32, y: f32, z: f32, w: f32)

  /** X, Y, Z, W, each in the given byte order. The four reads fail alike
      (a read past the end), so together they fail exactly when fewer than 16
      bytes remain. */
  function Read(s: bytes, e: Endian): (r: Result<Parsed<Vector4>>)
    ensures r.Ok? <==> |s| >= 16
    ensures r.Ok? ==> r.value.rest == s[16..]
  {
    if |s| < 16 then Err(ArgumentOutOfRange)
    else Ok(Parsed(Vector4(DecodeU32(s[..4], e), DecodeU32(s[4..8], e),
                           DecodeU32(s[8..12], e), DecodeU32(s[12..16], e)), s[16..]))
  }

  function Write(v: Vector4, e: Endian): (r: bytes)
    ensures |r| == 16
  {
    EncodeF32(v.x, e) + EncodeF32(v.y, e) + EncodeF32(v.z, e) + EncodeF32(v.w, e)
  }

  /** Read after Write restores every component's bit pattern. */
  lemma RoundTrip(v: Vector4, e: Endian, rest: bytes)
    ensures Read(Write(v, e) + rest, e) == Ok(Parsed(v, rest))
  {
    Slices4x4(EncodeF32(v.x, e), EncodeF32(v.y, e), EncodeF32(v.z, e), EncodeF32(v.w, e), rest);
    DecodeEncodeU32(v.x, e);
    DecodeEncodeU32(v.y, e);
    DecodeEncodeU32(v.z, e);
    DecodeEncodeU32(v.w, e);
  }

  /** Write after Read gives back the 16 bytes read. */
  lemma WriteOfRead(s: bytes, e: Endian)
    requires |s| >= 16
    ensures Write(Read(s, e).value.value, e) + Read(s, e).value.rest == s
  {
    EncodeDecodeU32(s[..4], e);
    EncodeDecodeU32(s[4..8], e);
    EncodeDecodeU32(s[8..12], e);
    EncodeDecodeU32(s[12..16], e);
    Join4x4(s);
  }

  /** Read and Write as values, for counted lists. */
  function Reader(e: Endian): bytes -> Result<Parsed<Vector4>> {
    (s: bytes) => Read(s, e)
  }

  function Writer(e: Endian): Vector4 -> bytes {
    (v: Vector4) => Write(v, e)
  }

  lemma ReaderIsFixedWidth(e: Endian)
    ensures FixedWidth(Reader(e), 16)
  {
  }

  /** A list written item by item reads back whole. */
  lemma ListRoundTrip(xs: seq<Vector4>, e: Endian, rest: bytes)
    ensures |WriteEach(xs, Writer(e))| == 16 * |xs|
    ensures ReadMany(WriteEach(xs, Writer(e)) + rest, |xs|, Reader(e)) == Ok(Parsed(xs, rest))
  {
    forall i | 0 <= i < |xs|
      ensures InverseOf(Reader(e), Writer(e), xs[i])
    {
      forall rest': bytes
        ensures Reader(e)(Writer(e)(xs[i]) + rest') == Ok(Parsed(xs[i], rest'))
      {
        RoundTrip(xs[i], e, rest');
      }
    }
    EachRoundTrip(xs, rest, Reader(e), Writer(e));
    WriteEachLength(xs, Writer(e), 16);
  }
}

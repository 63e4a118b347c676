/** Color: four channel bytes, packed into a u32 with R in the low byte. */
module Colors {
  import opened Wrappers
  import opened Bytes

  datatype Color = Color(r: byte, g: byte, b: byte, a: byte)

  /** `Color(uint rgba)`: byte k of the word, `(rgba >> 8k) & 0xFF`. */
  function FromRGBA(v: u32): Color {
    Color(v % 0x100, (v / 0x100) % 0x100, (v / 0x1_0000) % 0x100, (v / 0x100_0000) % 0x100)
  }

  /** `AsRGBA`: A, then `<<= 8` and `|=` for B, G and R. Each shift leaves the
      low byte zero, so the OR is an addition. */
  function AsRGBA(c: Color): u32 {
    var v0: int := c.a;
    var v1 := v0 * 0x100 + c.b;
    var v2 := v1 * 0x100 + c.g;
    v2 * 0x100 + c.r
  }

  lemma AsRGBAOfFromRGBA(v: u32)
    ensures AsRGBA(FromRGBA(v)) == v
  {
    var c := FromRGBA(v);
    assert v == v % 0x100 + 0x100 * (v / 0x100);
    var w := v / 0x100;
    assert w == w % 0x100 + 0x100 * (w / 0x100);
    var x := w / 0x100;
    assert x == v / 0x1_0000;
    assert x == x % 0x100 + 0x100 * (x / 0x100);
    assert x / 0x100 == v / 0x100_0000;
    assert v / 0x100_0000 < 0x100;
  }

  lemma FromRGBAOfAsRGBA(c: Color)
    ensures FromRGBA(AsRGBA(c)) == c
  {
    var v := AsRGBA(c);
    var v1 := c.a * 0x100 + c.b;
    var v2 := v1 * 0x100 + c.g;
    assert v % 0x100 == c.r && v / 0x100 == v2;
    assert v2 % 0x100 == c.g && v2 / 0x100 == v1;
    assert v / 0x1_0000 == v2 / 0x100;
    assert v / 0x100_0000 == v1 / 0x100;
  }

  /** R is the low byte of the packed word and A the high byte. */
  lemma ChannelPositions(c: Color)
    ensures AsRGBA(c) % 0x100 == c.r
    ensures AsRGBA(c) / 0x100_0000 == c.a
  {
    FromRGBAOfAsRGBA(c);
  }

  /** Four bytes R, G, B, A; the byte order does not depend on endianness. */
  function Read(s: bytes, e: Endian): (r: Result<Parsed<Color>>)
    ensures r.Ok? <==> |s| >= 4
    ensures r.Ok? ==> r.value.rest == s[4..]
    ensures r.Ok? ==> r.value.value == Color(s[0], s[1], s[2], s[3])
  {
    var r :- ReadU8(s);
    var g :- ReadU8(r.rest);
    var b :- ReadU8(g.rest);
    var a :- ReadU8(b.rest);
    Ok(Parsed(Color(r.value, g.value, b.value, a.value), a.rest))
  }

  function Write(c: Color, e: Endian): (r: bytes)
    ensures |r| == 4
  {
    [c.r, c.g, c.b, c.a]
  }

  lemma RoundTrip(c: Color, e: Endian, rest: bytes)
    ensures Read(Write(c, e) + rest, e) == Ok(Parsed(c, rest))
    ensures forall e': Endian :: Write(c, e') == Write(c, e)
  {
    assert (Write(c, e) + rest)[4..] == rest;
  }

  /** Read and Write as values, for counted lists. */
  function Reader(e: Endian): bytes -> Result<Parsed<Color>> {
    (s: bytes) => Read(s, e)
  }

  function Writer(e: Endian): Color -> bytes {
    (v: Color) => Write(v, e)
  }

  lemma ReaderIsFixedWidth(e: Endian)
    ensures FixedWidth(Reader(e), 4)
  {
  }

  /** A list written item by item reads back whole. */
  lemma ListRoundTrip(xs: seq<Color>, e: Endian, rest: bytes)
    ensures |WriteEach(xs, Writer(e))| == 4 * |xs|
    ensures ReadMany(WriteEach(xs, Writer(e)) + rest, |xs|, Reader(e)) == Ok(Parsed(xs, rest))
  {
    forall i | 0 <= i < |xs|
      ensures InverseOf(Reader(e), Writer(e), xs[i])
    {
      forall rest': bytes
        ensures Reader(e)(Writer(e)(xs[i]) + rest') == Ok(Parsed(xs[i], rest'))
      {
        RoundTrip(xs[i], e, rest');
      }
    }
    EachRoundTrip(xs, rest, Reader(e), Writer(e));
    WriteEachLength(xs, Writer(e), 4);
  }
}

/** Resources/Unknown50ResourceEntry and Unknown50Resource: a table of
    fixed-size entries followed by two byte lists of ids. */
module Unknown50 {
  import opened Wrappers
  import opened Bytes
  import opened Targets
  import Vectors
  import Colors

  /** `Unknown64` and `Unknown70` are nullable arrays in the source; only
      `Unknown70` is ever absent after a read. */
  datatype Entry = Entry(unknown00: Vectors.Vector4, unknown10: Vectors.Vector4,
                         unknown20: Vectors.Vector4, unknown30: Vectors.Vector4,
                         unknown40: Vectors.Vector4, unknown50: Vectors.Vector4,
                         unknown60: Colors.Color, unknown64: bytes, unknown70: Option<bytes>)

  /** Six vectors, a colour and 12 bytes; Tactics Ogre Reborn adds 16 more. */
  function EntrySize(t: Target): nat {
    if t.game == TacticsOgreReborn then 128 else 112
  }

  /** The entries a read produces, and the ones written back unchanged. */
  predicate WellFormedEntry(x: Entry, t: Target) {
    && |x.unknown64| == 12
    && (if t.game == TacticsOgreReborn then x.unknown70.Some? && |x.unknown70.value| == 16
        else x.unknown70.None?)
  }

  function VectorsOf(x: Entry): (r: seq<Vectors.Vector4>)
    ensures |r| == 6
  {
    [x.unknown00, x.unknown10, x.unknown20, x.unknown30, x.unknown40, x.unknown50]
  }

  /** The six vectors, read one after another. */
  function ReadVectors(s: bytes, e: Endian): (r: Result<Parsed<seq<Vectors.Vector4>>>)
    ensures r.Ok? <==> |s| >= 96
    ensures r.Ok? ==> |r.value.value| == 6 && r.value.rest == s[96..]
  {
    Vectors.ReaderIsFixedWidth(e);
    ReadManyFixed(s, 6, Vectors.Reader(e), 16);
    ReadMany(s, 6, Vectors.Reader(e))
  }

  /** The six vectors, written one after another. */
  function WriteVectors(x: Entry, e: Endian): (r: bytes)
    ensures |r| == 96
  {
    WriteEachLength(VectorsOf(x), Vectors.Writer(e), 16);
    WriteEach(VectorsOf(x), Vectors.Writer(e))
  }

  lemma VectorsRoundTrip(x: Entry, e: Endian, rest: bytes)
    ensures ReadVectors(WriteVectors(x, e) + rest, e) == Ok(Parsed(VectorsOf(x), rest))
  {
    Vectors.ListRoundTrip(VectorsOf(x), e, rest);
  }

  /** What follows the vectors: the colour, `Unknown64` and `Unknown70`. */
  datatype Tail = Tail(color: Colors.Color, unknown64: bytes, unknown70: Option<bytes>)

  /** From offset 96: the colour, 12 raw bytes and, for Tactics Ogre Reborn
      only, 16 more; other games leave `Unknown70` null. */
  function ReadTail(s: bytes, t: Target, e: Endian): (r: Result<Parsed<Tail>>)
    requires |s| >= 96
    ensures r.Ok? <==> |s| >= EntrySize(t)
    ensures r.Ok? ==> r.value.rest == s[EntrySize(t)..]
                      && r.value.value.color == Colors.Color(s[96], s[97], s[98], s[99])
                      && r.value.value.unknown64 == s[100..112]
                      && r.value.value.unknown70 == (if t.game == TacticsOgreReborn then Some(s[112..128]) else None)
  {
    var c :- Colors.Read(s[96..], e);
    assert c.rest == s[100..];
    var u64 :- ReadBytes(c.rest, 12);
    assert u64.value == s[100..112] && u64.rest == s[112..];
    if t.game == TacticsOgreReborn then
      var u70 :- ReadBytes(u64.rest, 16);
      assert u70.value == s[112..128] && u70.rest == s[128..];
      Ok(Parsed(Tail(c.value, u64.value, Some(u70.value)), u70.rest))
    else
      Ok(Parsed(Tail(c.value, u64.value, None), u64.rest))
  }

  /** `Read`: the six vectors, then the tail. */
  function ReadEntry(s: bytes, t: Target, e: Endian): (r: Result<Parsed<Entry>>)
    ensures r.Ok? <==> |s| >= EntrySize(t)
    ensures r.Ok? ==> r.value.rest == s[EntrySize(t)..] && WellFormedEntry(r.value.value, t)
    ensures r.Ok? ==> r.value.value.unknown60 == Colors.Color(s[96], s[97], s[98], s[99])
                      && r.value.value.unknown64 == s[100..112]
                      && r.value.value.unknown70 == (if t.game == TacticsOgreReborn then Some(s[112..128]) else None)
  {
    var vs :- ReadVectors(s, e);
    var tl :- ReadTail(s, t, e);
    var v := vs.value;
    Ok(Parsed(Entry(v[0], v[1], v[2], v[3], v[4], v[5], tl.value.color, tl.value.unknown64, tl.value.unknown70), tl.rest))
  }

  /** `Write`: the vectors and colour, the first 12 bytes of `Unknown64` and,
      for Tactics Ogre Reborn only, the first 16 of `Unknown70`. A short or
      null array is refused. */
  function WriteEntry(x: Entry, t: Target, e: Endian): (r: Result<bytes>)
    ensures r.Ok? <==> |x.unknown64| >= 12 &&
                       (t.game == TacticsOgreReborn ==> x.unknown70.Some? && |x.unknown70.value| >= 16)
    ensures r.Err? ==> r.error == Argument
    ensures r.Ok? ==> |r.value| == EntrySize(t) && r.value[100..112] == x.unknown64[..12]
    ensures r.Ok? && t.game == TacticsOgreReborn ==> r.value[112..] == x.unknown70.value[..16]
  {
    var vs := WriteVectors(x, e);
    var a :- WritePrefix(x.unknown64, 12);
    var head := vs + Colors.Write(x.unknown60, e) + a;
    if t.game == TacticsOgreReborn then
      if x.unknown70.None? then Err(Argument)
      else
        var b :- WritePrefix(x.unknown70.value, 16);
        Ok(head + b)
    else Ok(head)
  }

  /** Outside Tactics Ogre Reborn `Unknown70` is never written. */
  lemma WriteIgnoresUnknown70(x: Entry, t: Target, e: Endian, u70: Option<bytes>)
    requires t.game != TacticsOgreReborn
    ensures WriteEntry(x, t, e) == WriteEntry(x.(unknown70 := u70), t, e)
  {
  }

  /** The bytes after the vectors, for a well-formed entry. */
  function TailBytes(x: Entry, t: Target, e: Endian): (r: bytes)
    requires WellFormedEntry(x, t)
    ensures |r| == EntrySize(t) - 96
  {
    Colors.Write(x.unknown60, e) + x.unknown64 + (if t.game == TacticsOgreReborn then x.unknown70.value else [])
  }

  lemma WriteEntryShape(x: Entry, t: Target, e: Endian)
    requires WellFormedEntry(x, t)
    ensures WriteEntry(x, t, e) == Ok(WriteVectors(x, e) + TailBytes(x, t, e))
  {
    assert x.unknown64[..12] == x.unknown64;
    assert t.game == TacticsOgreReborn ==> x.unknown70.value[..16] == x.unknown70.value;
    var vb, cb := WriteVectors(x, e), Colors.Write(x.unknown60, e);
    if t.game == TacticsOgreReborn {
      assert vb + cb + x.unknown64 + x.unknown70.value == vb + (cb + x.unknown64 + x.unknown70.value);
    } else {
      assert vb + cb + x.unknown64 == vb + (cb + x.unknown64 + []);
    }
  }

  lemma TailRoundTrip(x: Entry, t: Target, e: Endian, s: bytes, rest: bytes)
    requires WellFormedEntry(x, t)
    requires |s| >= 96 && s[96..] == TailBytes(x, t, e) + rest
    ensures ReadTail(s, t, e) == Ok(Parsed(Tail(x.unknown60, x.unknown64, x.unknown70), rest))
  {
    var tb := TailBytes(x, t, e);
    assert s[96..100] == tb[..4] == Colors.Write(x.unknown60, e);
    assert s[100..112] == tb[4..16] == x.unknown64;
    assert t.game == TacticsOgreReborn ==> s[112..128] == tb[16..] == x.unknown70.value;
    assert s[EntrySize(t)..] == rest;
  }

  lemma EntryRoundTrip(x: Entry, t: Target, e: Endian, rest: bytes)
    requires WellFormedEntry(x, t)
    ensures WriteEntry(x, t, e).Ok?
    ensures ReadEntry(WriteEntry(x, t, e).value + rest, t, e) == Ok(Parsed(x, rest))
  {
    WriteEntryShape(x, t, e);
    var vb := WriteVectors(x, e);
    var after := TailBytes(x, t, e) + rest;
    var s := WriteEntry(x, t, e).value + rest;
    assert s == vb + after;
    VectorsRoundTrip(x, e, after);
    assert s[96..] == after;
    TailRoundTrip(x, t, e, s, rest);
  }

  // ---------------------------------------------------------------- the resource

  datatype Resource = Resource(unknown04: s32, entries: seq<Entry>, textureIds: seq<byte>, resource53Ids: seq<byte>)

  /** The 8-byte header: the three counts and `Unknown04`. */
  datatype Header = Header(entryCount: u16, textureIdCount: byte, resource53IdCount: byte, unknown04: s32)

  function WriteHeader(h: Header, e: Endian): (r: bytes)
    ensures |r| == 8 && r[2] == h.textureIdCount && r[3] == h.resource53IdCount
    ensures r[..2] == EncodeU16(h.entryCount, e) && r[4..] == EncodeS32(h.unknown04, e)
  {
    EncodeU16(h.entryCount, e) + [h.textureIdCount, h.resource53IdCount] + EncodeS32(h.unknown04, e)
  }

  function ReadHeader(s: bytes, e: Endian): (r: Result<Parsed<Header>>)
    ensures r.Ok? <==> |s| >= 8
    ensures r.Ok? ==> r.value.rest == s[8..] && r.value.value.textureIdCount == s[2]
                      && r.value.value.resource53IdCount == s[3]
                      && r.value.value.entryCount == DecodeU16(s[..2], e)
  {
    var a :- ReadU16(s, e);
    var b :- ReadU8(a.rest);
    var c :- ReadU8(b.rest);
    var d :- ReadS32(c.rest, e);
    Ok(Parsed(Header(a.value, b.value, c.value, d.value), d.rest))
  }

  lemma HeaderRoundTrip(h: Header, e: Endian, rest: bytes)
    ensures ReadHeader(WriteHeader(h, e) + rest, e) == Ok(Parsed(h, rest))
  {
    var s := WriteHeader(h, e) + rest;
    assert s == EncodeU16(h.entryCount, e) + ([h.textureIdCount] + ([h.resource53IdCount] + (EncodeS32(h.unknown04, e) + rest)));
    U16RoundTrip(h.entryCount, e, s[2..]);
    U8RoundTrip(h.textureIdCount, s[3..]);
    U8RoundTrip(h.resource53IdCount, s[4..]);
    S32RoundTrip(h.unknown04, e, rest);
  }

  function WriteEntries(xs: seq<Entry>, t: Target, e: Endian): (r: Result<bytes>)
    ensures r.Ok? <==> forall i :: 0 <= i < |xs| ==> WriteEntry(xs[i], t, e).Ok?
    ensures r.Err? ==> r.error == Argument
  {
    WriteMany(xs, (y: Entry) => WriteEntry(y, t, e))
  }

  function ReadEntries(s: bytes, t: Target, e: Endian, count: nat): (r: Result<Parsed<seq<Entry>>>)
    ensures r.Ok? ==> |r.value.value| == count
  {
    ReadMany(s, count, (y: bytes) => ReadEntry(y, t, e))
  }

  /** `Serialize`: the three count checks, in this order, then the header, the
      entries, the texture ids and the Resource53 ids. */
  function Serialize(x: Resource, t: Target, e: Endian): (r: Result<bytes>)
    ensures |x.entries| > 0xFFFF ==> r == Err(InvalidOperation)
    ensures |x.textureIds| > 0xFF || |x.resource53Ids| > 0xFF ==> r == Err(InvalidOperation)
    ensures r.Err? ==> r.error == InvalidOperation || r.error == Argument
    ensures r.Ok? ==> |r.value| >= 8 + |x.textureIds| + |x.resource53Ids| && r.value[2] == |x.textureIds| && r.value[3] == |x.resource53Ids|
                      && r.value[..2] == EncodeU16(|x.entries|, e)
                      && r.value[4..8] == EncodeS32(x.unknown04, e)
                      && r.value[|r.value| - |x.resource53Ids|..] == x.resource53Ids
  {
    if |x.entries| > 0xFFFF || |x.textureIds| > 0xFF || |x.resource53Ids| > 0xFF then Err(InvalidOperation)
    else
      var body :- WriteEntries(x.entries, t, e);
      var h := Header(|x.entries|, |x.textureIds|, |x.resource53Ids|, x.unknown04);
      Ok(WriteHeader(h, e) + body + x.textureIds + x.resource53Ids)
  }

  /** `Deserialize`: the header, then exactly the counted entries and ids; the
      old lists are discarded. */
  function Deserialize(s: bytes, t: Target, e: Endian): (r: Result<Parsed<Resource>>)
    ensures r.Ok? ==> |s| >= 8 && |r.value.value.textureIds| == s[2] && |r.value.value.resource53Ids| == s[3]
                      && |r.value.value.entries| == DecodeU16(s[..2], e)
  {
    var h :- ReadHeader(s, e);
    var entries :- ReadEntries(h.rest, t, e, h.value.entryCount);
    var tex :- ReadBytes(entries.rest, h.value.textureIdCount);
    var r53 :- ReadBytes(tex.rest, h.value.resource53IdCount);
    Ok(Parsed(Resource(h.value.unknown04, entries.value, tex.value, r53.value), r53.rest))
  }

  predicate WellFormed(x: Resource, t: Target) {
    && |x.entries| <= 0xFFFF && |x.textureIds| <= 0xFF && |x.resource53Ids| <= 0xFF
    && forall i :: 0 <= i < |x.entries| ==> WellFormedEntry(x.entries[i], t)
  }

  /** The encoded size is 8 + entrySize * entries + textureIds + resource53Ids. */
  lemma SerializedSize(x: Resource, t: Target, e: Endian)
    requires WellFormed(x, t)
    ensures Serialize(x, t, e).Ok?
    ensures |Serialize(x, t, e).value| == 8 + EntrySize(t) * |x.entries| + |x.textureIds| + |x.resource53Ids|
  {
    WriteManyLength(x.entries, (y: Entry) => WriteEntry(y, t, e), EntrySize(t));
    assert WriteEntries(x.entries, t, e) == WriteMany(x.entries, (y: Entry) => WriteEntry(y, t, e));
  }

  lemma EntriesRoundTrip(xs: seq<Entry>, t: Target, e: Endian, rest: bytes)
    requires forall i :: 0 <= i < |xs| ==> WellFormedEntry(xs[i], t)
    ensures WriteEntries(xs, t, e).Ok?
    ensures ReadEntries(WriteEntries(xs, t, e).value + rest, t, e, |xs|) == Ok(Parsed(xs, rest))
  {
    var read := (y: bytes) => ReadEntry(y, t, e);
    var write := (y: Entry) => WriteEntry(y, t, e);
    forall i | 0 <= i < |xs|
      ensures Inverse(read, write, xs[i])
    {
      forall rest': bytes
        ensures read(write(xs[i]).value + rest') == Ok(Parsed(xs[i], rest'))
      {
        EntryRoundTrip(xs[i], t, e, rest');
      }
    }
    ManyRoundTrip(xs, rest, read, write);
  }

  lemma SerializeShape(x: Resource, t: Target, e: Endian)
    requires WellFormed(x, t)
    ensures WriteEntries(x.entries, t, e).Ok?
    ensures Serialize(x, t, e)
         == Ok(WriteHeader(Header(|x.entries|, |x.textureIds|, |x.resource53Ids|, x.unknown04), e)
               + WriteEntries(x.entries, t, e).value + x.textureIds + x.resource53Ids)
  {
    EntriesRoundTrip(x.entries, t, e, []);
  }

  lemma RoundTrip(x: Resource, t: Target, e: Endian, rest: bytes)
    requires WellFormed(x, t)
    ensures Serialize(x, t, e).Ok?
    ensures Deserialize(Serialize(x, t, e).value + rest, t, e) == Ok(Parsed(x, rest))
  {
    SerializeShape(x, t, e);
    var ids := x.textureIds + (x.resource53Ids + rest);
    EntriesRoundTrip(x.entries, t, e, ids);
    var body := WriteEntries(x.entries, t, e).value;
    var h := Header(|x.entries|, |x.textureIds|, |x.resource53Ids|, x.unknown04);
    var hb := WriteHeader(h, e);
    var s := Serialize(x, t, e).value + rest;
    assert s == hb + body + x.textureIds + x.resource53Ids + rest;
    Regroup(hb, body, x.textureIds, x.resource53Ids, rest);
    HeaderRoundTrip(h, e, body + ids);
    assert ReadHeader(s, e) == Ok(Parsed(h, body + ids));
    assert ReadEntries(body + ids, t, e, h.entryCount) == Ok(Parsed(x.entries, ids));
    BytesRoundTrip(x.textureIds, x.resource53Ids + rest);
    BytesRoundTrip(x.resource53Ids, rest);
  }
}

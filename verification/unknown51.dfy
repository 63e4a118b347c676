/** Resources/Unknown51Entry and Unknown51Resource: a u16-counted list of
    16-byte entries. */
module Unknown51 {
  import opened Wrappers
  import opened Bytes
  import opened Targets

  datatype Entry = Entry(unknown00: bytes, unknown08: byte, unknown09: byte, unknown0A: bytes)

  const EntrySize: nat := 16

  /** The entries whose arrays have exactly the lengths written. */
  predicate WellFormedEntry(x: Entry) {
    |x.unknown00| == 8 && |x.unknown0A| == 6
  }

  /** `Read`: 8 raw bytes, two u8 and 6 raw bytes. */
  function ReadEntry(s: bytes, t: Target, e: Endian): (r: Result<Parsed<Entry>>)
    ensures r.Ok? <==> |s| >= EntrySize
    ensures r.Err? ==> r.error == ArgumentOutOfRange
    ensures r.Ok? ==> r.value == Parsed(Entry(s[..8], s[8], s[9], s[10..16]), s[16..])
  {
    var a :- ReadBytes(s, 8);
    var b :- ReadU8(a.rest);
    var c :- ReadU8(b.rest);
    var d :- ReadBytes(c.rest, 6);
    assert s[10..][..6] == s[10..16];
    Ok(Parsed(Entry(a.value, b.value, c.value, d.value), d.rest))
  }

  /** `Write`: the first 8 bytes of Unknown00, the two bytes, the first 6 bytes
      of Unknown0A; an array too short for its prefix is refused. */
  function WriteEntry(x: Entry, t: Target, e: Endian): (r: Result<bytes>)
    ensures r.Ok? <==> |x.unknown00| >= 8 && |x.unknown0A| >= 6
    ensures r.Err? ==> r.error == Argument
    ensures r.Ok? ==> r.value == x.unknown00[..8] + [x.unknown08, x.unknown09] + x.unknown0A[..6]
  {
    var a :- WritePrefix(x.unknown00, 8);
    var d :- WritePrefix(x.unknown0A, 6);
    Ok(a + [x.unknown08, x.unknown09] + d)
  }

  /** Neither the target nor the byte order affects the encoding. */
  lemma EntryIgnoresTargetAndEndian(x: Entry, s: bytes, t: Target, t': Target, e: Endian, e': Endian)
    ensures WriteEntry(x, t, e) == WriteEntry(x, t', e')
    ensures ReadEntry(s, t, e) == ReadEntry(s, t', e')
  {
  }

  lemma EntryRoundTrip(x: Entry, t: Target, e: Endian, rest: bytes)
    requires WellFormedEntry(x)
    ensures WriteEntry(x, t, e).Ok?
    ensures ReadEntry(WriteEntry(x, t, e).value + rest, t, e) == Ok(Parsed(x, rest))
  {
    var s := WriteEntry(x, t, e).value + rest;
    assert s[..8] == x.unknown00 && s[10..16] == x.unknown0A && s[16..] == rest;
  }

  /** Any 16 bytes read as an entry are written back unchanged. */
  lemma EntryWriteOfRead(s: bytes, t: Target, e: Endian)
    requires |s| >= EntrySize
    ensures WriteEntry(ReadEntry(s, t, e).value.value, t, e) == Ok(s[..16])
  {
    assert ReadEntry(s, t, e).value.value == Entry(s[..8], s[8], s[9], s[10..16]);
    assert s[..8][..8] == s[..8] && s[10..16][..6] == s[10..16];
    assert s[..8] + [s[8], s[9]] + s[10..16] == s[..16];
  }

  // ---------------------------------------------------------------- the resource

  datatype Resource = Resource(entries: seq<Entry>)

  /** `Serialize`: more than 65535 entries are refused; then the u16 count and
      the entries. */
  function Serialize(x: Resource, t: Target, e: Endian): (r: Result<bytes>)
    ensures |x.entries| > 0xFFFF ==> r == Err(InvalidOperation)
    ensures r.Ok? <==> |x.entries| <= 0xFFFF && forall i :: 0 <= i < |x.entries| ==>
                        |x.entries[i].unknown00| >= 8 && |x.entries[i].unknown0A| >= 6
    ensures r.Ok? ==> |r.value| >= 2 && r.value[..2] == EncodeU16(|x.entries|, e)
  {
    if |x.entries| > 0xFFFF then Err(InvalidOperation)
    else
      var body :- WriteEntries(x.entries, t, e);
      Ok(EncodeU16(|x.entries|, e) + body)
  }

  /** `Deserialize`: the u16 count, then exactly that many entries; the old
      list is discarded. */
  function Deserialize(s: bytes, t: Target, e: Endian): (r: Result<Parsed<Resource>>)
    ensures r.Ok? ==> |s| >= 2 && |r.value.value.entries| == DecodeU16(s[..2], e)
  {
    var count :- ReadU16(s, e);
    var entries :- ReadEntries(count.rest, t, e, count.value);
    Ok(Parsed(Resource(entries.value), entries.rest))
  }

  /** The encoded size is 2 + 16 n. */
  lemma SerializedSize(x: Resource, t: Target, e: Endian)
    requires |x.entries| <= 0xFFFF && forall i :: 0 <= i < |x.entries| ==> WellFormedEntry(x.entries[i])
    ensures Serialize(x, t, e).Ok? && |Serialize(x, t, e).value| == 2 + EntrySize * |x.entries|
  {
    WriteManyLength(x.entries, (y: Entry) => WriteEntry(y, t, e), EntrySize);
    assert WriteEntries(x.entries, t, e) == WriteMany(x.entries, (y: Entry) => WriteEntry(y, t, e));
  }

  function WriteEntries(xs: seq<Entry>, t: Target, e: Endian): (r: Result<bytes>)
    ensures r.Ok? <==> forall i :: 0 <= i < |xs| ==> WriteEntry(xs[i], t, e).Ok?
  {
    WriteMany(xs, (y: Entry) => WriteEntry(y, t, e))
  }

  function ReadEntries(s: bytes, t: Target, e: Endian, count: nat): (r: Result<Parsed<seq<Entry>>>)
    ensures r.Ok? ==> |r.value.value| == count
  {
    ReadMany(s, count, (y: bytes) => ReadEntry(y, t, e))
  }

  lemma EntriesRoundTrip(xs: seq<Entry>, t: Target, e: Endian, rest: bytes)
    requires forall i :: 0 <= i < |xs| ==> WellFormedEntry(xs[i])
    ensures WriteEntries(xs, t, e).Ok?
    ensures ReadEntries(WriteEntries(xs, t, e).value + rest, t, e, |xs|) == Ok(Parsed(xs, rest))
  {
    var read := (y: bytes) => ReadEntry(y, t, e);
    var write := (y: Entry) => WriteEntry(y, t, e);
    forall i | 0 <= i < |xs|
      ensures Inverse(read, write, xs[i])
    {
      forall rest': bytes
        ensures read(write(xs[i]).value + rest') == Ok(Parsed(xs[i], rest'))
      {
        EntryRoundTrip(xs[i], t, e, rest');
      }
    }
    ManyRoundTrip(xs, rest, read, write);
  }

  lemma RoundTrip(x: Resource, t: Target, e: Endian, rest: bytes)
    requires |x.entries| <= 0xFFFF && forall i :: 0 <= i < |x.entries| ==> WellFormedEntry(x.entries[i])
    ensures Serialize(x, t, e).Ok?
    ensures Deserialize(Serialize(x, t, e).value + rest, t, e) == Ok(Parsed(x, rest))
  {
    EntriesRoundTrip(x.entries, t, e, rest);
    var body := WriteEntries(x.entries, t, e).value;
    assert Serialize(x, t, e) == Ok(EncodeU16(|x.entries|, e) + body);
    var s := Serialize(x, t, e).value + rest;
    assert s == EncodeU16(|x.entries|, e) + (body + rest);
    U16RoundTrip(|x.entries|, e, body + rest);
    assert ReadU16(s, e) == Ok(Parsed(|x.entries|, body + rest));
  }
}

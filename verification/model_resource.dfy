/** Resources/ModelResource: a header of counts, five counted lists, four
    flag-gated s16 arrays, two raw arrays and the texture ids. */
module ModelResources {
  import opened Wrappers
  import opened Bytes
  import opened Targets
  import Padding
  import Vectors
  import Colors

  /** `UV` and `ModelUnknown` are not part of this model: they are carried as
      raw elements of a fixed size each, given here. */
  datatype Layout = Layout(uvSize: nat, unknownEntrySize: nat)

  /** The six arrays are nullable in the source (`None`). */
  datatype Model = Model(
    flags: byte,
    unknown010Count: u16,
    unknown012Count: u16,
    vertices: seq<Vectors.Vector4>,
    unknownVectors: seq<Vectors.Vector4>,
    colors: seq<Colors.Color>,
    uvs: seq<bytes>,
    unknownEntries: seq<bytes>,
    unknown170_0: Option<seq<s16>>,
    unknown170_1: Option<seq<s16>>,
    unknown174_0: Option<seq<s16>>,
    unknown174_1: Option<seq<s16>>,
    unknown188_0: Option<bytes>,
    unknown188_1: Option<bytes>,
    textureIds: seq<byte>)

  /** `(Flags & 1) != 0`: the four s16 arrays are present in the data. */
  predicate HasExtra(flags: byte) {
    flags % 2 == 1
  }

  /** One padding byte after the flags before version 11, three from 11 on. */
  function PaddingSize(t: Target): nat {
    if t.version < 11 then 1 else 3
  }

  // ---------------------------------------------------------------- validation

  /** Two checks in a row: the second is only made when the first passes. */
  function Then(a: Outcome, b: Outcome): (r: Outcome)
    ensures r.Pass? <==> a.Pass? && b.Pass?
    ensures a.Fail? ==> r == a
  {
    if a.Fail? then a else b
  }

  /** `array.Length != n`: a null array throws before the comparison. */
  function CheckLength<T>(a: Option<seq<T>>, n: int): (r: Outcome)
    ensures r.Pass? <==> a.Some? && |a.value| == n
    ensures a.None? ==> r == Fail(NullReference)
    ensures a.Some? && |a.value| != n ==> r == Fail(InvalidOperation)
  {
    if a.None? then Fail(NullReference)
    else if |a.value| != n then Fail(InvalidOperation)
    else Pass
  }

  /** `Count > ushort.MaxValue`. */
  function CheckCount(n: nat): (r: Outcome)
    ensures r.Pass? <==> n <= 0xFFFF
    ensures r.Fail? ==> r.error == InvalidOperation
  {
    if n > 0xFFFF then Fail(InvalidOperation) else Pass
  }

  /** The four flag-gated length checks; without the flag they are skipped,
      so a null array there passes. */
  function GatedChecks(m: Model): (r: Outcome)
    ensures r.Pass? <==> (HasExtra(m.flags) ==>
          && m.unknown170_0.Some? && |m.unknown170_0.value| == m.unknown010Count * 3
          && m.unknown170_1.Some? && |m.unknown170_1.value| == m.unknown012Count * 4
          && m.unknown174_0.Some? && |m.unknown174_0.value| == m.unknown010Count * 3
          && m.unknown174_1.Some? && |m.unknown174_1.value| == m.unknown012Count * 4)
    ensures r.Fail? ==> r.error == NullReference || r.error == InvalidOperation
    ensures HasExtra(m.flags) && m.unknown170_0.None? ==> r == Fail(NullReference)
  {
    if !HasExtra(m.flags) then Pass
    else
      var c10, c12 := m.unknown010Count, m.unknown012Count;
      Then(CheckLength(m.unknown170_0, c10 * 3),
           Then(CheckLength(m.unknown170_1, c12 * 4),
                Then(CheckLength(m.unknown174_0, c10 * 3), CheckLength(m.unknown174_1, c12 * 4))))
  }

  /** The two raw arrays, checked whatever the flag. */
  function RawChecks(m: Model): (r: Outcome)
    ensures r.Pass? <==> && m.unknown188_0.Some? && |m.unknown188_0.value| == m.unknown010Count
                         && m.unknown188_1.Some? && |m.unknown188_1.value| == m.unknown012Count
    ensures r.Fail? ==> r.error == NullReference || r.error == InvalidOperation
    ensures m.unknown188_0.None? ==> r == Fail(NullReference)
  {
    Then(CheckLength(m.unknown188_0, m.unknown010Count), CheckLength(m.unknown188_1, m.unknown012Count))
  }

  /** The six lists must be countable in a u16. */
  function CountChecks(m: Model): (r: Outcome)
    ensures r.Pass? <==> && |m.vertices| <= 0xFFFF && |m.unknownVectors| <= 0xFFFF && |m.colors| <= 0xFFFF
                         && |m.uvs| <= 0xFFFF && |m.textureIds| <= 0xFFFF && |m.unknownEntries| <= 0xFFFF
    ensures r.Fail? ==> r.error == InvalidOperation
  {
    Then(CheckCount(|m.vertices|), Then(CheckCount(|m.unknownVectors|), Then(CheckCount(|m.colors|),
      Then(CheckCount(|m.uvs|), Then(CheckCount(|m.textureIds|), CheckCount(|m.unknownEntries|))))))
  }

  /** The models `Serialize` accepts. */
  predicate Serializable(m: Model) {
    && (HasExtra(m.flags) ==>
          && m.unknown170_0.Some? && |m.unknown170_0.value| == m.unknown010Count * 3
          && m.unknown170_1.Some? && |m.unknown170_1.value| == m.unknown012Count * 4
          && m.unknown174_0.Some? && |m.unknown174_0.value| == m.unknown010Count * 3
          && m.unknown174_1.Some? && |m.unknown174_1.value| == m.unknown012Count * 4)
    && m.unknown188_0.Some? && |m.unknown188_0.value| == m.unknown010Count
    && m.unknown188_1.Some? && |m.unknown188_1.value| == m.unknown012Count
    && |m.vertices| <= 0xFFFF && |m.unknownVectors| <= 0xFFFF && |m.colors| <= 0xFFFF
    && |m.uvs| <= 0xFFFF && |m.textureIds| <= 0xFFFF && |m.unknownEntries| <= 0xFFFF
  }

  /** The checks `Serialize` makes before writing anything, in the order it
      makes them: the gated arrays, the raw arrays, then the list counts. */
  function Validate(m: Model): (r: Outcome)
    ensures r.Pass? <==> Serializable(m)
    ensures r.Fail? ==> r.error == NullReference || r.error == InvalidOperation
    ensures HasExtra(m.flags) && m.unknown170_0.None? ==> r == Fail(NullReference)
    ensures !HasExtra(m.flags) && m.unknown188_0.None? ==> r == Fail(NullReference)
  {
    Then(GatedChecks(m), Then(RawChecks(m), CountChecks(m)))
  }

  /** Without the flag the gated arrays never affect validation, null or not. */
  lemma ValidateIgnoresGatedArrays(m: Model, a: Option<seq<s16>>, b: Option<seq<s16>>,
                                   c: Option<seq<s16>>, d: Option<seq<s16>>)
    requires !HasExtra(m.flags)
    ensures Validate(m) == Validate(m.(unknown170_0 := a, unknown170_1 := b, unknown174_0 := c, unknown174_1 := d))
  {
  }

  // ---------------------------------------------------------------- header

  /** Flags and the eight u16 counts, in the order they are written:
      Unknown010, Unknown012, vertices, unknown vectors, colours, UVs,
      texture ids, unknown entries. */
  datatype Header = Header(flags: byte, counts: seq<u16>)

  function HeaderSize(t: Target): nat {
    1 + PaddingSize(t) + 16
  }

  function WriteHeader(h: Header, t: Target, e: Endian): (r: bytes)
    requires |h.counts| == 8
    ensures |r| == HeaderSize(t) && r[0] == h.flags && Padding.AllZero(r[1..1 + PaddingSize(t)])
  {
    WriteEachLength(h.counts, U16Writer(e), 2);
    [h.flags] + Padding.SkipWrite(PaddingSize(t)) + WriteEach(h.counts, U16Writer(e))
  }

  function ReadHeader(s: bytes, t: Target, e: Endian): (r: Result<Parsed<Header>>)
    ensures r.Ok? <==> |s| >= HeaderSize(t) && Padding.AllZero(s[1..1 + PaddingSize(t)])
    ensures r.Ok? ==> r.value.rest == s[HeaderSize(t)..] && r.value.value.flags == s[0]
                      && |r.value.value.counts| == 8
    ensures |s| >= HeaderSize(t) && !Padding.AllZero(s[1..1 + PaddingSize(t)]) ==> r == Err(Format)
  {
    var f :- ReadU8(s);
    assert |s| >= 1 + PaddingSize(t) ==> f.rest[..PaddingSize(t)] == s[1..1 + PaddingSize(t)];
    var p :- Padding.SkipRead(f.rest, PaddingSize(t));
    assert FixedWidth(U16Reader(e), 2);
    ReadManyFixed(p, 8, U16Reader(e), 2);
    var cs :- ReadMany(p, 8, U16Reader(e));
    Ok(Parsed(Header(f.value, cs.value), cs.rest))
  }

  lemma HeaderRoundTrip(h: Header, t: Target, e: Endian, rest: bytes)
    requires |h.counts| == 8
    ensures ReadHeader(WriteHeader(h, t, e) + rest, t, e) == Ok(Parsed(h, rest))
  {
    var cb := WriteEach(h.counts, U16Writer(e));
    var s := WriteHeader(h, t, e) + rest;
    assert s == [h.flags] + (Padding.SkipWrite(PaddingSize(t)) + (cb + rest));
    U8RoundTrip(h.flags, Padding.SkipWrite(PaddingSize(t)) + (cb + rest));
    Padding.SkipRoundTrip(PaddingSize(t), cb + rest);
    U16ListRoundTrip(h.counts, e, rest);
    ReadHeaderStages(s, t, e, h, Padding.SkipWrite(PaddingSize(t)) + (cb + rest), cb + rest, rest);
  }

  /** `ReadHeader` as the composition of its three reads. */
  lemma ReadHeaderStages(s: bytes, t: Target, e: Endian, h: Header, r0: bytes, r1: bytes, r2: bytes)
    requires ReadU8(s) == Ok(Parsed(h.flags, r0))
    requires Padding.SkipRead(r0, PaddingSize(t)) == Ok(r1)
    requires ReadMany(r1, 8, U16Reader(e)) == Ok(Parsed(h.counts, r2))
    ensures ReadHeader(s, t, e) == Ok(Parsed(h, r2))
  {
  }

  /** The counts a model writes into its header. */
  function HeaderOf(m: Model): (h: Header)
    requires Serializable(m)
    ensures |h.counts| == 8
  {
    Header(m.flags, [m.unknown010Count, m.unknown012Count, |m.vertices|, |m.unknownVectors|,
                     |m.colors|, |m.uvs|, |m.textureIds|, |m.unknownEntries|])
  }

  // ---------------------------------------------------------------- the five lists

  datatype Lists = Lists(vertices: seq<Vectors.Vector4>, unknownVectors: seq<Vectors.Vector4>,
                         colors: seq<Colors.Color>, uvs: seq<bytes>, unknownEntries: seq<bytes>)

  /** The list bodies, in the order they are written (not the header's order:
      the unknown entries come before the texture ids here). */
  function WriteLists(l: Lists, e: Endian): (r: bytes) {
    WriteEach(l.vertices, Vectors.Writer(e)) + WriteEach(l.unknownVectors, Vectors.Writer(e))
      + WriteEach(l.colors, Colors.Writer(e)) + WriteEach(l.uvs, RawWriter())
      + WriteEach(l.unknownEntries, RawWriter())
  }

  /** The lists, with the counts read from the header. */
  function ReadLists(s: bytes, counts: seq<u16>, e: Endian, layout: Layout): (r: Result<Parsed<Lists>>)
    requires |counts| == 8
    ensures r.Ok? ==> |r.value.value.vertices| == counts[2] && |r.value.value.unknownVectors| == counts[3]
                      && |r.value.value.colors| == counts[4] && |r.value.value.uvs| == counts[5]
                      && |r.value.value.unknownEntries| == counts[7]
  {
    var v :- ReadMany(s, counts[2], Vectors.Reader(e));
    var u :- ReadMany(v.rest, counts[3], Vectors.Reader(e));
    var c :- ReadMany(u.rest, counts[4], Colors.Reader(e));
    var uv :- ReadMany(c.rest, counts[5], RawReader(layout.uvSize));
    var en :- ReadMany(uv.rest, counts[7], RawReader(layout.unknownEntrySize));
    Ok(Parsed(Lists(v.value, u.value, c.value, uv.value, en.value), en.rest))
  }

  /** The raw elements have the sizes the layout gives. */
  predicate FitsLayout(l: Lists, layout: Layout) {
    && (forall i :: 0 <= i < |l.uvs| ==> |l.uvs[i]| == layout.uvSize)
    && (forall i :: 0 <= i < |l.unknownEntries| ==> |l.unknownEntries[i]| == layout.unknownEntrySize)
  }

  function ListsOf(m: Model): Lists {
    Lists(m.vertices, m.unknownVectors, m.colors, m.uvs, m.unknownEntries)
  }

  lemma ListsRoundTrip(l: Lists, counts: seq<u16>, e: Endian, layout: Layout, rest: bytes)
    requires FitsLayout(l, layout) && |counts| == 8
    requires counts[2] == |l.vertices| && counts[3] == |l.unknownVectors| && counts[4] == |l.colors|
    requires counts[5] == |l.uvs| && counts[7] == |l.unknownEntries|
    ensures ReadLists(WriteLists(l, e) + rest, counts, e, layout) == Ok(Parsed(l, rest))
  {
    var b0 := WriteEach(l.vertices, Vectors.Writer(e));
    var b1 := WriteEach(l.unknownVectors, Vectors.Writer(e));
    var b2 := WriteEach(l.colors, Colors.Writer(e));
    var b3 := WriteEach(l.uvs, RawWriter());
    var b4 := WriteEach(l.unknownEntries, RawWriter());
    var r3 := b4 + rest;
    var r2 := b3 + r3;
    var r1 := b2 + r2;
    var r0 := b1 + r1;
    Regroup5(b0, b1, b2, b3, b4, rest);
    Vectors.ListRoundTrip(l.vertices, e, r0);
    Vectors.ListRoundTrip(l.unknownVectors, e, r1);
    Colors.ListRoundTrip(l.colors, e, r2);
    RawListRoundTrip(l.uvs, layout.uvSize, r3);
    RawListRoundTrip(l.unknownEntries, layout.unknownEntrySize, rest);
  }

  // ---------------------------------------------------------------- the flag-gated arrays

  datatype Extra = Extra(unknown170_0: Option<seq<s16>>, unknown170_1: Option<seq<s16>>,
                         unknown174_0: Option<seq<s16>>, unknown174_1: Option<seq<s16>>)

  function ExtraOf(m: Model): Extra {
    Extra(m.unknown170_0, m.unknown170_1, m.unknown174_0, m.unknown174_1)
  }

  /** The four arrays, each element an s16; only called with the arrays present. */
  function WriteExtra(x: Extra, e: Endian): (r: bytes)
    requires x.unknown170_0.Some? && x.unknown170_1.Some? && x.unknown174_0.Some? && x.unknown174_1.Some?
  {
    WriteEach(x.unknown170_0.value, S16Writer(e)) + WriteEach(x.unknown170_1.value, S16Writer(e))
      + WriteEach(x.unknown174_0.value, S16Writer(e)) + WriteEach(x.unknown174_1.value, S16Writer(e))
  }

  /** Fresh arrays of 3 * Unknown010Count and 4 * Unknown012Count elements. */
  function ReadExtra(s: bytes, c10: u16, c12: u16, e: Endian): (r: Result<Parsed<Extra>>)
    ensures r.Ok? ==> var x := r.value.value;
                      && x.unknown170_0.Some? && |x.unknown170_0.value| == c10 * 3
                      && x.unknown170_1.Some? && |x.unknown170_1.value| == c12 * 4
                      && x.unknown174_0.Some? && |x.unknown174_0.value| == c10 * 3
                      && x.unknown174_1.Some? && |x.unknown174_1.value| == c12 * 4
    ensures r.Ok? <==> |s| >= 2 * (6 * c10 + 8 * c12)
  {
    assert FixedWidth(S16Reader(e), 2);
    ReadManyFixed(s, c10 * 3, S16Reader(e), 2);
    var a :- ReadMany(s, c10 * 3, S16Reader(e));
    ReadManyFixed(a.rest, c12 * 4, S16Reader(e), 2);
    var b :- ReadMany(a.rest, c12 * 4, S16Reader(e));
    ReadManyFixed(b.rest, c10 * 3, S16Reader(e), 2);
    var c :- ReadMany(b.rest, c10 * 3, S16Reader(e));
    ReadManyFixed(c.rest, c12 * 4, S16Reader(e), 2);
    var d :- ReadMany(c.rest, c12 * 4, S16Reader(e));
    Ok(Parsed(Extra(Some(a.value), Some(b.value), Some(c.value), Some(d.value)), d.rest))
  }

  lemma ExtraRoundTrip(x: Extra, c10: u16, c12: u16, e: Endian, rest: bytes)
    requires x.unknown170_0.Some? && x.unknown170_1.Some? && x.unknown174_0.Some? && x.unknown174_1.Some?
    requires |x.unknown170_0.value| == c10 * 3 && |x.unknown174_0.value| == c10 * 3
    requires |x.unknown170_1.value| == c12 * 4 && |x.unknown174_1.value| == c12 * 4
    ensures ReadExtra(WriteExtra(x, e) + rest, c10, c12, e) == Ok(Parsed(x, rest))
  {
    var b0 := WriteEach(x.unknown170_0.value, S16Writer(e));
    var b1 := WriteEach(x.unknown170_1.value, S16Writer(e));
    var b2 := WriteEach(x.unknown174_0.value, S16Writer(e));
    var b3 := WriteEach(x.unknown174_1.value, S16Writer(e));
    Regroup(b0, b1, b2, b3, rest);
    S16ListRoundTrip(x.unknown170_0.value, e, b1 + (b2 + (b3 + rest)));
    S16ListRoundTrip(x.unknown170_1.value, e, b2 + (b3 + rest));
    S16ListRoundTrip(x.unknown174_0.value, e, b3 + rest);
    S16ListRoundTrip(x.unknown174_1.value, e, rest);
    assert ReadMany(WriteExtra(x, e) + rest, c10 * 3, S16Reader(e)) == Ok(Parsed(x.unknown170_0.value, b1 + (b2 + (b3 + rest))));
    assert ReadMany(b1 + (b2 + (b3 + rest)), c12 * 4, S16Reader(e)) == Ok(Parsed(x.unknown170_1.value, b2 + (b3 + rest)));
    assert ReadMany(b2 + (b3 + rest), c10 * 3, S16Reader(e)) == Ok(Parsed(x.unknown174_0.value, b3 + rest));
  }

  // ---------------------------------------------------------------- the trailer

  datatype Trailer = Trailer(unknown188_0: bytes, unknown188_1: bytes, textureIds: seq<byte>)

  /** Two slices of Unknown010Count and Unknown012Count bytes, then the texture
      ids one `ReadValueU8` at a time (the same as one slice). */
  function ReadTrailer(s: bytes, c10: u16, c12: u16, textureCount: u16): (r: Result<Parsed<Trailer>>)
    ensures r.Ok? <==> |s| >= c10 + c12 + textureCount
    ensures r.Ok? ==> r.value == Parsed(Trailer(s[..c10], s[c10..c10 + c12], s[c10 + c12..c10 + c12 + textureCount]),
                                        s[c10 + c12 + textureCount..])
  {
    var a :- ReadBytes(s, c10);
    var b :- ReadBytes(a.rest, c12);
    var c :- ReadBytes(b.rest, textureCount);
    assert s[c10..][..c12] == s[c10..c10 + c12];
    assert s[c10..][c12..] == s[c10 + c12..];
    assert s[c10 + c12..][..textureCount] == s[c10 + c12..c10 + c12 + textureCount];
    Ok(Parsed(Trailer(a.value, b.value, c.value), c.rest))
  }

  function WriteTrailer(x: Trailer): (r: bytes) {
    x.unknown188_0 + x.unknown188_1 + x.textureIds
  }

  lemma TrailerRoundTrip(x: Trailer, rest: bytes)
    requires |x.unknown188_0| <= 0xFFFF && |x.unknown188_1| <= 0xFFFF && |x.textureIds| <= 0xFFFF
    ensures ReadTrailer(WriteTrailer(x) + rest, |x.unknown188_0|, |x.unknown188_1|, |x.textureIds|)
         == Ok(Parsed(x, rest))
  {
    var s := WriteTrailer(x) + rest;
    var n0, n1, n2 := |x.unknown188_0|, |x.unknown188_1|, |x.textureIds|;
    assert s[..n0] == x.unknown188_0;
    assert s[n0..n0 + n1] == x.unknown188_1;
    assert s[n0 + n1..n0 + n1 + n2] == x.textureIds;
    assert s[n0 + n1 + n2..] == rest;
  }

  // ---------------------------------------------------------------- the resource

  /** What follows the header: the lists, the gated arrays when the flag is
      set, the two raw arrays and the texture ids. */
  function Body(m: Model, e: Endian): (r: bytes)
    requires Serializable(m)
  {
    WriteLists(ListsOf(m), e)
      + (if HasExtra(m.flags) then WriteExtra(ExtraOf(m), e) else [])
      + WriteTrailer(Trailer(m.unknown188_0.value, m.unknown188_1.value, m.textureIds))
  }

  /** The encoding of a model that passed validation. */
  function Encode(m: Model, t: Target, e: Endian): (r: bytes)
    requires Serializable(m)
    ensures |r| >= HeaderSize(t) && r[..HeaderSize(t)] == WriteHeader(HeaderOf(m), t, e)
  {
    var hb := WriteHeader(HeaderOf(m), t, e);
    assert (hb + Body(m, e))[..HeaderSize(t)] == hb;
    hb + Body(m, e)
  }

  /** `Serialize`: every check first, and only then any writing. */
  function Serialize(m: Model, t: Target, e: Endian): (r: Result<bytes>)
    ensures r.Ok? <==> Serializable(m)
    ensures r.Err? ==> r.error == Validate(m).error
    ensures r.Ok? ==> |r.value| >= HeaderSize(t) && r.value[..HeaderSize(t)] == WriteHeader(HeaderOf(m), t, e)
  {
    var v := Validate(m);
    if v.Fail? then Err(v.error) else Ok(Encode(m, t, e))
  }

  /** `Deserialize` into the existing object `prior`: every field is replaced
      except the four gated arrays, which keep their old values when the flag
      is clear. The arrays it does fill have the lengths the counts give. */
  function Deserialize(prior: Model, s: bytes, t: Target, e: Endian, layout: Layout): (r: Result<Parsed<Model>>)
    ensures r.Ok? ==> |s| >= HeaderSize(t) && r.value.value.flags == s[0]
    ensures r.Ok? && !HasExtra(r.value.value.flags) ==> ExtraOf(r.value.value) == ExtraOf(prior)
    ensures |s| >= HeaderSize(t) && !Padding.AllZero(s[1..1 + PaddingSize(t)]) ==> r == Err(Format)
    ensures r.Ok? ==> var m := r.value.value;
            && m.unknown188_0.Some? && |m.unknown188_0.value| == m.unknown010Count
            && m.unknown188_1.Some? && |m.unknown188_1.value| == m.unknown012Count
    ensures r.Ok? && HasExtra(r.value.value.flags) ==> var m := r.value.value;
            && m.unknown170_0.Some? && |m.unknown170_0.value| == m.unknown010Count * 3
            && m.unknown170_1.Some? && |m.unknown170_1.value| == m.unknown012Count * 4
            && m.unknown174_0.Some? && |m.unknown174_0.value| == m.unknown010Count * 3
            && m.unknown174_1.Some? && |m.unknown174_1.value| == m.unknown012Count * 4
  {
    match ReadHeader(s, t, e)
    case Err(err) => Err(err)
    case Ok(h) =>
      var cs := h.value.counts;
      match ReadLists(h.rest, cs, e, layout)
      case Err(err) => Err(err)
      case Ok(l) =>
        match (if HasExtra(h.value.flags) then ReadExtra(l.rest, cs[0], cs[1], e)
               else Ok(Parsed(ExtraOf(prior), l.rest)))
        case Err(err) => Err(err)
        case Ok(x) =>
          match ReadTrailer(x.rest, cs[0], cs[1], cs[6])
          case Err(err) => Err(err)
          case Ok(tr) =>
            var lv, xv, tv := l.value, x.value, tr.value;
            Ok(Parsed(Model(h.value.flags, cs[0], cs[1], lv.vertices, lv.unknownVectors, lv.colors, lv.uvs,
                            lv.unknownEntries, xv.unknown170_0, xv.unknown170_1, xv.unknown174_0, xv.unknown174_1,
                            Some(tv.unknown188_0), Some(tv.unknown188_1), tv.textureIds), tr.rest))
  }

  /** What a read of `m`'s encoding into `prior` produces. */
  function Reread(m: Model, prior: Model): Model {
    if HasExtra(m.flags) then m
    else m.(unknown170_0 := prior.unknown170_0, unknown170_1 := prior.unknown170_1,
            unknown174_0 := prior.unknown174_0, unknown174_1 := prior.unknown174_1)
  }

  /** `Deserialize` as the composition of its four stages. */
  lemma DeserializeStages(prior: Model, s: bytes, t: Target, e: Endian, layout: Layout,
                          h: Header, l: Lists, x: Extra, tr: Trailer, r1: bytes, r2: bytes, r3: bytes, r4: bytes)
    requires |h.counts| == 8
    requires ReadHeader(s, t, e) == Ok(Parsed(h, r1))
    requires ReadLists(r1, h.counts, e, layout) == Ok(Parsed(l, r2))
    requires HasExtra(h.flags) ==> ReadExtra(r2, h.counts[0], h.counts[1], e) == Ok(Parsed(x, r3))
    requires !HasExtra(h.flags) ==> x == ExtraOf(prior) && r3 == r2
    requires ReadTrailer(r3, h.counts[0], h.counts[1], h.counts[6]) == Ok(Parsed(tr, r4))
    ensures Deserialize(prior, s, t, e, layout)
         == Ok(Parsed(Model(h.flags, h.counts[0], h.counts[1], l.vertices, l.unknownVectors, l.colors, l.uvs,
                            l.unknownEntries, x.unknown170_0, x.unknown170_1, x.unknown174_0, x.unknown174_1,
                            Some(tr.unknown188_0), Some(tr.unknown188_1), tr.textureIds), r4))
  {
  }

  /** The lists of a model come back with the counts its header carries. */
  lemma ModelListsRoundTrip(m: Model, e: Endian, layout: Layout, rest: bytes)
    requires Serializable(m) && FitsLayout(ListsOf(m), layout)
    ensures ReadLists(WriteLists(ListsOf(m), e) + rest, HeaderOf(m).counts, e, layout) == Ok(Parsed(ListsOf(m), rest))
  {
    ListsRoundTrip(ListsOf(m), HeaderOf(m).counts, e, layout, rest);
  }

  lemma EncodeRoundTrip(m: Model, prior: Model, t: Target, e: Endian, layout: Layout, rest: bytes)
    requires Serializable(m) && FitsLayout(ListsOf(m), layout)
    ensures Deserialize(prior, Encode(m, t, e) + rest, t, e, layout) == Ok(Parsed(Reread(m, prior), rest))
  {
    var h := HeaderOf(m);
    var lb := WriteLists(ListsOf(m), e);
    var xb := if HasExtra(m.flags) then WriteExtra(ExtraOf(m), e) else [];
    var tr := Trailer(m.unknown188_0.value, m.unknown188_1.value, m.textureIds);
    var tb := WriteTrailer(tr);
    var hb := WriteHeader(h, t, e);
    var r1, r2, r3 := lb + (xb + (tb + rest)), xb + (tb + rest), tb + rest;
    ModelListsRoundTrip(m, e, layout, r2);
    if HasExtra(m.flags) {
      ExtraRoundTrip(ExtraOf(m), m.unknown010Count, m.unknown012Count, e, r3);
    }
    TrailerRoundTrip(tr, rest);
    HeaderRoundTrip(h, t, e, r1);
    var s := Encode(m, t, e) + rest;
    Assoc(hb, Body(m, e), rest);
    Regroup3(lb, xb, tb, rest);
    assert s == hb + r1;
    assert h.counts[0] == m.unknown010Count && h.counts[1] == m.unknown012Count;
    assert h.counts[6] == |m.textureIds|;
    var x := if HasExtra(m.flags) then ExtraOf(m) else ExtraOf(prior);
    if !HasExtra(m.flags) {
      assert r2 == r3;
    }
    DeserializeStages(prior, s, t, e, layout, h, ListsOf(m), x, tr, r1, r2, r3, rest);
  }

  /** Every model `Serialize` accepts is read back as written, except that
      without the flag the gated arrays keep the values `prior` had. */
  lemma RoundTrip(m: Model, prior: Model, t: Target, e: Endian, layout: Layout, rest: bytes)
    requires Serializable(m) && FitsLayout(ListsOf(m), layout)
    ensures Serialize(m, t, e).Ok?
    ensures Deserialize(prior, Serialize(m, t, e).value + rest, t, e, layout) == Ok(Parsed(Reread(m, prior), rest))
  {
    EncodeRoundTrip(m, prior, t, e, layout, rest);
  }
}

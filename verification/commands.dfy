/** The command payload codecs: SchedulerAddCommand, the byte-exact
    UnhandledCommand, and the ResourceAddCommand reader. */
module Commands {
  import opened Wrappers
  import opened Bytes
  import opened Targets
  import Padding
  import S = Schedulers
  import ResourceKeys

  const SchedulerAddOpcode: u16 := 0x620
  const ResourceAddOpcode: u16 := 0xB00

  /** `DataOffsetDelta` of SchedulerAddCommand. */
  const SchedulerAddDataOffsetDelta: int := 4

  // ---------------------------------------------------------------- SchedulerAddCommand

  /** `Scheduler` and `Padding` are nullable references in the source. */
  datatype SchedulerAddCommand = SchedulerAddCommand(
    metaId: u16, pageId: byte, schedulerId: byte,
    scheduler: Option<S.Scheduler>, padding: Option<bytes>)

  /** `GetPaddingSize`: 12 zero bytes before version 11, 11 from version 11 on. */
  function PaddingSize(t: Target): nat {
    if t.version < 11 then 12 else 11
  }

  /** The MetaId field is a u8 before version 11 and a u16 from version 11 on. */
  function MetaWidth(t: Target): nat {
    if t.version < 11 then 1 else 2
  }

  const HeaderSize: nat := 16

  /** MetaId, PageId and SchedulerId, the scheduler's type byte and the zero
      padding take 16 bytes for every target. */
  lemma HeaderIsSixteenBytes(t: Target)
    ensures MetaWidth(t) + 3 + PaddingSize(t) == HeaderSize
  {
  }

  /** The inline `switch` of `Deserialize` on the header's type byte. */
  function Dispatch(code: byte): (r: Result<S.Scheduler>)
    ensures r.Ok? ==> S.TypeCode(r.value) == code
  {
    if code == 0 then Ok(S.Unknown0(S.NoBase))
    else if code == 1 then Ok(S.Unknown1(S.NoBase, 0, 0, 0))
    else if code == 2 then Ok(S.Unknown2(S.NoBase, 0, []))
    else if code == 3 then Ok(S.Unknown3(S.NoBase, 0, 0, 0, 0))
    else Err(NotSupported)
  }

  /** The inline dispatch and SchedulerFactory.Create agree on every byte. */
  lemma DispatchAgreesWithFactory(code: byte)
    ensures Dispatch(code) == S.Create(code)
  {
  }

  function WriteMeta(metaId: u16, t: Target, e: Endian): (r: Result<bytes>)
    ensures r.Ok? <==> t.version >= 11 || metaId <= 255
    ensures r.Err? ==> r.error == InvalidOperation
    ensures r.Ok? ==> |r.value| == MetaWidth(t)
  {
    if t.version < 11 then
      if metaId > 255 then Err(InvalidOperation) else Ok([metaId as byte])
    else Ok(EncodeU16(metaId, e))
  }

  function ReadMeta(s: bytes, t: Target, e: Endian): (r: Result<Parsed<u16>>)
    ensures r.Ok? <==> |s| >= MetaWidth(t)
    ensures r.Ok? ==> r.value.rest == s[MetaWidth(t)..]
    ensures r.Ok? && t.version < 11 ==> r.value.value == s[0]
  {
    if t.version < 11 then
      var m :- ReadU8(s);
      Ok(Parsed(m.value as u16, m.rest))
    else ReadU16(s, e)
  }

  lemma MetaRoundTrip(metaId: u16, t: Target, e: Endian, rest: bytes)
    requires t.version >= 11 || metaId <= 255
    ensures WriteMeta(metaId, t, e).Ok?
    ensures ReadMeta(WriteMeta(metaId, t, e).value + rest, t, e) == Ok(Parsed(metaId, rest))
  {
    if t.version < 11 {
      U8RoundTrip(metaId as byte, rest);
    } else {
      U16RoundTrip(metaId, e, rest);
    }
  }

  /** The 16-byte header before the scheduler body. */
  datatype Header = Header(metaId: u16, pageId: byte, schedulerId: byte, typeCode: byte)

  function WriteHeader(h: Header, t: Target, e: Endian): (r: Result<bytes>)
    ensures r.Ok? <==> t.version >= 11 || h.metaId <= 255
    ensures r.Err? ==> r.error == InvalidOperation
    ensures r.Ok? ==> |r.value| == HeaderSize && r.value[MetaWidth(t)] == h.pageId
                      && r.value[MetaWidth(t) + 1] == h.schedulerId && r.value[MetaWidth(t) + 2] == h.typeCode
    ensures r.Ok? ==> Padding.AllZero(r.value[MetaWidth(t) + 3..])
  {
    var meta :- WriteMeta(h.metaId, t, e);
    var r := meta + [h.pageId, h.schedulerId, h.typeCode] + Padding.SkipWrite(PaddingSize(t));
    assert r[MetaWidth(t) + 3..] == Padding.SkipWrite(PaddingSize(t));
    Ok(r)
  }

  function ReadHeader(s: bytes, t: Target, e: Endian): (r: Result<Parsed<Header>>)
    ensures r.Ok? <==> |s| >= HeaderSize && Padding.AllZero(s[MetaWidth(t) + 3..HeaderSize])
    ensures r.Ok? ==> r.value.rest == s[HeaderSize..]
    ensures r.Ok? ==> r.value.value.pageId == s[MetaWidth(t)] && r.value.value.schedulerId == s[MetaWidth(t) + 1]
                      && r.value.value.typeCode == s[MetaWidth(t) + 2]
  {
    var w := MetaWidth(t);
    var meta :- ReadMeta(s, t, e);
    var page :- ReadU8(meta.rest);
    var sid :- ReadU8(page.rest);
    var typ :- ReadU8(sid.rest);
    assert typ.rest == s[w + 3..];
    assert |s| >= HeaderSize ==> typ.rest[..PaddingSize(t)] == s[w + 3..HeaderSize];
    var pad :- Padding.SkipRead(typ.rest, PaddingSize(t));
    Ok(Parsed(Header(meta.value, page.value, sid.value, typ.value), pad))
  }

  lemma HeaderRoundTrip(h: Header, t: Target, e: Endian, rest: bytes)
    requires t.version >= 11 || h.metaId <= 255
    ensures WriteHeader(h, t, e).Ok?
    ensures ReadHeader(WriteHeader(h, t, e).value + rest, t, e) == Ok(Parsed(h, rest))
  {
    var meta := WriteMeta(h.metaId, t, e).value;
    var p := Padding.SkipWrite(PaddingSize(t)) + rest;
    var s3 := [h.typeCode] + p;
    var s2 := [h.schedulerId] + s3;
    var s1 := [h.pageId] + s2;
    assert WriteHeader(h, t, e).value + rest == meta + s1;
    MetaRoundTrip(h.metaId, t, e, s1);
    U8RoundTrip(h.pageId, s2);
    U8RoundTrip(h.schedulerId, s3);
    U8RoundTrip(h.typeCode, p);
    Padding.SkipRoundTrip(PaddingSize(t), rest);
  }

  /** `Serialize`: a null scheduler and, before version 11, a MetaId above 255
      are refused; `Padding` is appended only when it is not null. */
  function SerializeSchedulerAdd(c: SchedulerAddCommand, t: Target, e: Endian): (r: Result<bytes>)
    ensures c.scheduler.None? ==> r == Err(InvalidOperation)
    ensures c.scheduler.Some? && t.version < 11 && c.metaId > 255 ==> r == Err(InvalidOperation)
    ensures r.Ok? <==> c.scheduler.Some? && (t.version >= 11 || c.metaId <= 255)
                       && S.Serializable(c.scheduler.value, t)
    ensures r.Ok? ==> |r.value| >= HeaderSize + S.Base.Size
    ensures r.Ok? ==> r.value[MetaWidth(t)] == c.pageId && r.value[MetaWidth(t) + 1] == c.schedulerId
                      && r.value[MetaWidth(t) + 2] == S.TypeCode(c.scheduler.value)
  {
    if c.scheduler.None? then Err(InvalidOperation)
    else
      var x := c.scheduler.value;
      var header :- WriteHeader(Header(c.metaId, c.pageId, c.schedulerId, S.TypeCode(x)), t, e);
      var body :- S.Serialize(x, t, e);
      var tail := if c.padding.Some? then c.padding.value else [];
      Ok(header + body + tail)
  }

  /** `Deserialize`: the header, the scheduler chosen by the type byte with the
      header's SchedulerId assigned before its own prefix is read, and the
      remaining bytes as `Padding`, null when there are none. */
  function DeserializeSchedulerAdd(s: bytes, t: Target, e: Endian): (r: Result<SchedulerAddCommand>)
    ensures r.Ok? ==> |s| >= HeaderSize + S.Base.Size && r.value.scheduler.Some?
    ensures r.Ok? ==> r.value.pageId == s[MetaWidth(t)] && r.value.schedulerId == s[MetaWidth(t) + 1]
    ensures r.Ok? ==> S.TypeCode(r.value.scheduler.value) == s[MetaWidth(t) + 2]
    ensures r.Ok? ==> r.value.scheduler.value.base.id == s[HeaderSize]
    ensures r.Ok? ==> r.value.padding.None? || |r.value.padding.value| > 0
  {
    var h :- ReadHeader(s, t, e);
    var created :- Dispatch(h.value.typeCode);
    var body :- S.Deserialize(S.WithId(created, h.value.schedulerId), h.rest, t, e);
    Ok(SchedulerAddCommand(h.value.metaId, h.value.pageId, h.value.schedulerId, Some(body.value),
                           if |body.rest| > 0 then Some(body.rest) else None))
  }

  /** A type byte outside 0..3 in an otherwise readable header is not supported. */
  lemma UnknownSchedulerTypeRejected(s: bytes, t: Target, e: Endian)
    requires |s| >= HeaderSize && s[MetaWidth(t) + 2] > 3
    requires Padding.AllZero(s[MetaWidth(t) + 3..HeaderSize])
    ensures DeserializeSchedulerAdd(s, t, e) == Err(NotSupported)
  {
  }

  /** The commands that survive a round trip. A present but empty `Padding`
      comes back null, so it is excluded. */
  predicate WellFormedSchedulerAdd(c: SchedulerAddCommand, t: Target) {
    && c.scheduler.Some?
    && S.WellFormed(c.scheduler.value, t)
    && (t.version >= 11 || c.metaId <= 255)
    && (c.padding.None? || |c.padding.value| > 0)
  }

  /** `DeserializeSchedulerAdd` as the composition of its stages. */
  lemma DeserializeSchedulerAddStages(s: bytes, t: Target, e: Endian, h: Header, r1: bytes,
                                      x: S.Scheduler, tail: bytes)
    requires ReadHeader(s, t, e) == Ok(Parsed(h, r1)) && Dispatch(h.typeCode).Ok?
    requires S.Deserialize(S.WithId(Dispatch(h.typeCode).value, h.schedulerId), r1, t, e) == Ok(Parsed(x, tail))
    ensures DeserializeSchedulerAdd(s, t, e)
         == Ok(SchedulerAddCommand(h.metaId, h.pageId, h.schedulerId, Some(x),
                                   if |tail| > 0 then Some(tail) else None))
  {
  }

  lemma SchedulerAddRoundTrip(c: SchedulerAddCommand, t: Target, e: Endian)
    requires WellFormedSchedulerAdd(c, t)
    ensures SerializeSchedulerAdd(c, t, e).Ok?
    ensures DeserializeSchedulerAdd(SerializeSchedulerAdd(c, t, e).value, t, e) == Ok(c)
  {
    var x := c.scheduler.value;
    var h := Header(c.metaId, c.pageId, c.schedulerId, S.TypeCode(x));
    var header := WriteHeader(h, t, e).value;
    var body := S.Serialize(x, t, e).value;
    var tail := if c.padding.Some? then c.padding.value else [];
    assert SerializeSchedulerAdd(c, t, e).value == header + body + tail;
    Assoc(header, body, tail);
    HeaderRoundTrip(h, t, e, body + tail);
    var created := Dispatch(S.TypeCode(x)).value;
    S.RoundTrip(x, S.WithId(created, c.schedulerId), t, e, tail);
    DeserializeSchedulerAddStages(header + (body + tail), t, e, h, body + tail, x, tail);
  }

  /** Only the scheduler's own prefix decides its Id: the header SchedulerId
      assigned before it is overwritten. */
  lemma SchedulerIdOverwritten(s: bytes, t: Target, e: Endian, sid: byte)
    requires |s| >= HeaderSize + 1
    ensures var s' := s[MetaWidth(t) + 1 := sid];
            DeserializeSchedulerAdd(s', t, e).Ok? ==>
              DeserializeSchedulerAdd(s', t, e).value.scheduler.value.base.id == s[HeaderSize]
  {
  }

  // ---------------------------------------------------------------- UnhandledCommand

  /** The opcode is the one the constructor was given; `Data` is kept verbatim. */
  datatype UnhandledCommand = UnhandledCommand(opcode: u16, dataOffset: s32, data: bytes)

  /** `Serialize`: the bytes written and the `dataOffset` out-parameter. */
  function SerializeUnhandled(c: UnhandledCommand): (r: (bytes, s32))
  {
    (c.data, c.dataOffset)
  }

  /** `Deserialize` into an instance built for `opcode`. */
  function DeserializeUnhandled(opcode: u16, s: bytes, dataOffset: s32): (r: UnhandledCommand)
  {
    UnhandledCommand(opcode, dataOffset, s)
  }

  /** Serialize(Deserialize(span, off)) is (span, off) for arbitrary bytes, and
      the opcode passes through unchanged. */
  lemma UnhandledRoundTrip(opcode: u16, s: bytes, dataOffset: s32)
    ensures SerializeUnhandled(DeserializeUnhandled(opcode, s, dataOffset)) == (s, dataOffset)
    ensures DeserializeUnhandled(opcode, s, dataOffset).opcode == opcode
  {
  }

  lemma UnhandledRoundTripObject(c: UnhandledCommand)
    ensures var (d, off) := SerializeUnhandled(c);
            DeserializeUnhandled(c.opcode, d, off) == c
  {
  }

  // ---------------------------------------------------------------- ResourceAddCommand

  datatype ResourceAddCommand = ResourceAddCommand(key: ResourceKeys.ResourceKey, data: bytes)

  /** `Read`: the key from the first 4 bytes, every remaining byte as `Data`. */
  function ReadResourceAdd(s: bytes, e: Endian): (r: Result<ResourceAddCommand>)
    ensures r.Ok? <==> |s| >= 4
    ensures r.Err? ==> r.error == ArgumentOutOfRange
    ensures r.Ok? ==> r.value.data == s[4..] && r.value.key.rtype == s[2] && r.value.key.id == s[3]
  {
    var key :- ResourceKeys.Read(s, e);
    Ok(ResourceAddCommand(key.value, key.rest))
  }

  lemma ResourceAddReadsKeyAndData(k: ResourceKeys.ResourceKey, d: bytes, e: Endian)
    ensures ReadResourceAdd(ResourceKeys.Write(k, e) + d, e) == Ok(ResourceAddCommand(k, d))
  {
    ResourceKeys.ReadWrite(k, e, d);
  }
}

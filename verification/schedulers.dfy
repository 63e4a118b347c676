/** The scheduler family: SchedulerUnknown1/2/3 on top of the common prefix,
    the base-only Unknown0, and the SchedulerFactory discriminant dispatch. */
module Schedulers {
  import opened Wrappers
  import opened Bytes
  import opened Targets
  import Padding
  import Base = SchedulerBase
  import Sub = SchedulerUnknown2Sub

  datatype Scheduler =
    | Unknown0(base: Base.BaseFields)
    | Unknown1(base: Base.BaseFields, generatorId: u16, elementId: u16, unknown14: byte)
    | Unknown2(base: Base.BaseFields, entryAllocatedCount: byte, entries: seq<Sub.Action>)
    | Unknown3(base: Base.BaseFields, unknown10: byte, unknown11: byte, attachId: u16, unknown1C: s32)

  /** The `Type` each variant reports, as the SchedulerType byte. */
  function TypeCode(x: Scheduler): byte {
    match x
    case Unknown0(_) => 0
    case Unknown1(_, _, _, _) => 1
    case Unknown2(_, _, _) => 2
    case Unknown3(_, _, _, _, _) => 3
  }

  const NoBase := Base.BaseFields(0, 0, 0, 0, 0)

  /** `SchedulerFactory.Create`: discriminants 0..3 give a fresh instance of
      their own variant, every other value is not supported. */
  function Create(code: byte): (r: Result<Scheduler>)
    ensures r.Ok? <==> code <= 3
    ensures r.Ok? ==> TypeCode(r.value) == code
    ensures r.Err? ==> r.error == NotSupported
  {
    if code == 0 then Ok(Unknown0(NoBase))
    else if code == 1 then Ok(Unknown1(NoBase, 0, 0, 0))
    else if code == 2 then Ok(Unknown2(NoBase, 0, []))
    else if code == 3 then Ok(Unknown3(NoBase, 0, 0, 0, 0))
    else Err(NotSupported)
  }

  /** Distinct supported discriminants give distinct variants. */
  lemma CreateInjective(a: byte, b: byte)
    requires Create(a).Ok? && Create(b).Ok? && a != b
    ensures Create(a).value != Create(b).value
  {
  }

  /** `scheduler.Id = ...`: only the prefix's Id changes. */
  function WithId(x: Scheduler, id: byte): (r: Scheduler)
    ensures TypeCode(r) == TypeCode(x) && r.base.id == id
    ensures r.base == x.base.(id := id)
  {
    x.(base := x.base.(id := id))
  }

  /** What Serialize checks before writing: at most 255 live entries, no more
      live entries than allocated, and SchedulerUnknown3 only up to version 10. */
  predicate Serializable(x: Scheduler, t: Target) {
    match x
    case Unknown0(_) => true
    case Unknown1(_, _, _, _) => true
    case Unknown2(_, alloc, entries) =>
      |entries| <= alloc && forall i :: 0 <= i < |entries| ==> Sub.WellFormed(entries[i], t)
    case Unknown3(_, _, _, _, _) => t.version <= 10
  }

  /** The objects that survive a round trip: serializable, with flags
      Deserialize accepts. */
  predicate WellFormed(x: Scheduler, t: Target) {
    Serializable(x, t) && Base.LegalFlags(x.base)
  }

  /** The encoded length of a serializable scheduler. */
  function EncodedSize(x: Scheduler, t: Target): nat {
    match x
    case Unknown0(_) => Base.Size
    case Unknown1(_, _, _, _) => Base.Size + 16
    case Unknown2(_, alloc, _) => Base.Size + 4 + alloc * Sub.ActionSize(t)
    case Unknown3(_, _, _, _, _) => Base.Size + 16
  }

  // ---------------------------------------------------------------- extensions after the prefix

  /** SchedulerUnknown1: GeneratorId, ElementId, Unknown14 and 11 zero bytes. */
  function Write1(g: u16, el: u16, u14: byte, e: Endian): (r: bytes)
    ensures |r| == 16 && r[..2] == EncodeU16(g, e) && r[2..4] == EncodeU16(el, e) && r[4] == u14
    ensures Padding.AllZero(r[5..])
  {
    EncodeU16(g, e) + EncodeU16(el, e) + [u14] + Padding.SkipWrite(11)
  }

  /** SchedulerUnknown2: live count, allocated count, 2 zero bytes, the live
      actions and the filler for the unused slots. */
  function Write2(alloc: byte, entries: seq<Sub.Action>, t: Target): (r: Result<bytes>)
    ensures r.Ok? <==> |entries| <= alloc && forall i :: 0 <= i < |entries| ==> Sub.WellFormed(entries[i], t)
    ensures r.Err? ==> r.error == InvalidOperation
    ensures r.Ok? ==> |r.value| >= 4 && r.value[0] == |entries| && r.value[1] == alloc
                      && r.value[2] == 0 && r.value[3] == 0
  {
    if |entries| > 255 then Err(InvalidOperation)
    else if |entries| > alloc then Err(InvalidOperation)
    else
      var live :- Sub.WriteActions(entries, t);
      var fill := Sub.SkipWrite(t, |entries|, alloc).value;
      Ok([|entries| as byte, alloc] + Padding.SkipWrite(2) + live + fill)
  }

  /** SchedulerUnknown3: Unknown10, Unknown11, AttachId, 8 zero bytes, Unknown1C. */
  function Write3(u10: byte, u11: byte, attach: u16, u1c: s32, e: Endian): (r: bytes)
    ensures |r| == 16 && r[0] == u10 && r[1] == u11 && r[2..4] == EncodeU16(attach, e)
    ensures Padding.AllZero(r[4..12]) && r[12..] == EncodeS32(u1c, e)
  {
    [u10, u11] + EncodeU16(attach, e) + Padding.SkipWrite(8) + EncodeS32(u1c, e)
  }

  /** `Serialize`: the checks first, then the prefix with the variant's own
      type byte, then the extension. */
  function Serialize(x: Scheduler, t: Target, e: Endian): (r: Result<bytes>)
    ensures r.Ok? <==> Serializable(x, t)
    ensures x.Unknown3? && t.version > 10 ==> r == Err(ArgumentOutOfRange)
    ensures r.Err? && !x.Unknown3? ==> r.error == InvalidOperation
    ensures r.Ok? ==> |r.value| >= Base.Size && r.value[..Base.Size] == Base.Serialize(x.base, TypeCode(x), e)
  {
    var prefix := Base.Serialize(x.base, TypeCode(x), e);
    var r: Result<bytes> :=
      match x
      case Unknown0(_) => Ok(prefix)
      case Unknown1(_, g, el, u14) => Ok(prefix + Write1(g, el, u14, e))
      case Unknown2(_, alloc, entries) =>
        var ext :- Write2(alloc, entries, t);
        Ok(prefix + ext)
      case Unknown3(_, u10, u11, attach, u1c) =>
        if t.version > 10 then Err(ArgumentOutOfRange)
        else Ok(prefix + Write3(u10, u11, attach, u1c, e));
    assert r.Ok? ==> |r.value| >= Base.Size && r.value[..Base.Size] == prefix;
    r
  }

  /** The written length is fixed by the variant, and for SchedulerUnknown2 by
      the allocated count, never by the number of live entries. */
  lemma SerializedSize(x: Scheduler, t: Target, e: Endian)
    requires Serializable(x, t)
    ensures Serialize(x, t, e).Ok? && |Serialize(x, t, e).value| == EncodedSize(x, t)
  {
    if x.Unknown2? {
      Sub.SlotsTotal(x.entries, t, |x.entries|, x.entryAllocatedCount);
    }
  }

  // ---------------------------------------------------------------- reading

  function Read1(s: bytes, e: Endian): (r: Result<Parsed<(u16, u16, byte)>>)
    ensures r.Ok? ==> |s| >= 16 && r.value.rest == s[16..]
  {
    var g :- ReadU16(s, e);
    var el :- ReadU16(g.rest, e);
    var u14 :- ReadU8(el.rest);
    var tail :- Padding.SkipRead(u14.rest, 11);
    Ok(Parsed((g.value, el.value, u14.value), tail))
  }

  function Read2(s: bytes, t: Target, e: Endian): (r: Result<Parsed<(byte, seq<Sub.Action>)>>)
    ensures r.Ok? ==> |r.value.value.1| <= r.value.value.0
    ensures r.Ok? ==> forall i :: 0 <= i < |r.value.value.1| ==> Sub.WellFormed(r.value.value.1[i], t)
    ensures |s| >= 4 && s[0] > s[1] && s[2] == 0 && s[3] == 0 ==> r == Err(Format)
  {
    var count :- ReadU8(s);
    var alloc :- ReadU8(count.rest);
    var pad :- Padding.SkipRead(alloc.rest, 2);
    if count.value > alloc.value then Err(Format)
    else
      var live :- Sub.ReadActions(pad, t, count.value);
      ActionsWellFormed(pad, t, count.value);
      var tail :- Sub.SkipRead(live.rest, t, count.value, alloc.value);
      Ok(Parsed((alloc.value, live.value), tail))
  }

  /** Every action the table reader returns is one Write accepts. */
  lemma {:induction false} ActionsWellFormed(s: bytes, t: Target, n: nat)
    requires Sub.ReadActions(s, t, n).Ok?
    ensures forall i :: 0 <= i < n ==> Sub.WellFormed(Sub.ReadActions(s, t, n).value.value[i], t)
    decreases n
  {
    if n > 0 {
      var p := Sub.Read(s, t).value;
      ActionsWellFormed(p.rest, t, n - 1);
      assert Sub.ReadActions(s, t, n).value.value == [p.value] + Sub.ReadActions(p.rest, t, n - 1).value.value;
    }
  }

  function Read3(s: bytes, e: Endian): (r: Result<Parsed<(byte, byte, u16, s32)>>)
    ensures r.Ok? ==> |s| >= 16 && r.value.rest == s[16..]
  {
    var u10 :- ReadU8(s);
    var u11 :- ReadU8(u10.rest);
    var attach :- ReadU16(u11.rest, e);
    var gap :- Padding.SkipRead(attach.rest, 8);
    var u1c :- ReadS32(gap, e);
    Ok(Parsed((u10.value, u11.value, attach.value, u1c.value), u1c.rest))
  }

  /** `Deserialize` on the instance x the factory made: x's variant decides the
      layout, and every field is overwritten. SchedulerUnknown3 refuses
      version 11 before reading anything. */
  function Deserialize(x: Scheduler, s: bytes, t: Target, e: Endian): (r: Result<Parsed<Scheduler>>)
    ensures r.Ok? ==> TypeCode(r.value.value) == TypeCode(x) && Base.LegalFlags(r.value.value.base)
    ensures r.Ok? ==> |s| >= Base.Size && r.value.value.base.id == s[0]
    ensures x.Unknown3? && t.version > 10 ==> r == Err(ArgumentOutOfRange)
    ensures !(x.Unknown3? && t.version > 10) && Base.Deserialize(s, e).Err?
            ==> r == Err(Base.Deserialize(s, e).error)
  {
    if x.Unknown3? && t.version > 10 then Err(ArgumentOutOfRange)
    else
      var b :- Base.Deserialize(s, e);
      match x
      case Unknown0(_) => Ok(Parsed(Unknown0(b.value), b.rest))
      case Unknown1(_, _, _, _) =>
        var p :- Read1(b.rest, e);
        Ok(Parsed(Unknown1(b.value, p.value.0, p.value.1, p.value.2), p.rest))
      case Unknown2(_, _, _) =>
        var p :- Read2(b.rest, t, e);
        Ok(Parsed(Unknown2(b.value, p.value.0, p.value.1), p.rest))
      case Unknown3(_, _, _, _, _) =>
        var p :- Read3(b.rest, e);
        Ok(Parsed(Unknown3(b.value, p.value.0, p.value.1, p.value.2, p.value.3), p.rest))
  }

  // ---------------------------------------------------------------- round trips

  lemma Read1RoundTrip(g: u16, el: u16, u14: byte, e: Endian, rest: bytes)
    ensures Read1(Write1(g, el, u14, e) + rest, e) == Ok(Parsed((g, el, u14), rest))
  {
    var tail := Padding.SkipWrite(11) + rest;
    var a := [u14] + tail;
    var b := EncodeU16(el, e) + a;
    assert Write1(g, el, u14, e) + rest == EncodeU16(g, e) + b;
    U16RoundTrip(g, e, b);
    U16RoundTrip(el, e, a);
    U8RoundTrip(u14, tail);
    Padding.SkipRoundTrip(11, rest);
  }

  lemma Read3RoundTrip(u10: byte, u11: byte, attach: u16, u1c: s32, e: Endian, rest: bytes)
    ensures Read3(Write3(u10, u11, attach, u1c, e) + rest, e) == Ok(Parsed((u10, u11, attach, u1c), rest))
  {
    var d := EncodeS32(u1c, e) + rest;
    var c := Padding.SkipWrite(8) + d;
    var b := EncodeU16(attach, e) + c;
    var a := [u11] + b;
    assert Write3(u10, u11, attach, u1c, e) + rest == [u10] + a;
    U8RoundTrip(u10, a);
    U8RoundTrip(u11, b);
    U16RoundTrip(attach, e, c);
    Padding.SkipRoundTrip(8, d);
    S32RoundTrip(u1c, e, rest);
  }

  lemma Read2RoundTrip(alloc: byte, entries: seq<Sub.Action>, t: Target, e: Endian, rest: bytes)
    requires |entries| <= alloc && forall i :: 0 <= i < |entries| ==> Sub.WellFormed(entries[i], t)
    ensures Write2(alloc, entries, t).Ok?
    ensures Read2(Write2(alloc, entries, t).value + rest, t, e) == Ok(Parsed((alloc, entries), rest))
  {
    var live := Sub.WriteActions(entries, t).value;
    var fill := Sub.SkipWrite(t, |entries|, alloc).value;
    var c := live + (fill + rest);
    var b := Padding.SkipWrite(2) + c;
    var a := [alloc] + b;
    assert Write2(alloc, entries, t).value + rest == [|entries| as byte] + a;
    U8RoundTrip(|entries| as byte, a);
    U8RoundTrip(alloc, b);
    Padding.SkipRoundTrip(2, c);
    TableRoundTrip(alloc, entries, t, rest);
  }

  /** The action table and its filler read back as written. */
  lemma TableRoundTrip(alloc: byte, entries: seq<Sub.Action>, t: Target, rest: bytes)
    requires |entries| <= alloc && forall i :: 0 <= i < |entries| ==> Sub.WellFormed(entries[i], t)
    ensures Sub.WriteActions(entries, t).Ok? && Sub.SkipWrite(t, |entries|, alloc).Ok?
    ensures var live := Sub.WriteActions(entries, t).value;
            var fill := Sub.SkipWrite(t, |entries|, alloc).value;
            && Sub.ReadActions(live + (fill + rest), t, |entries|) == Ok(Parsed(entries, fill + rest))
            && Sub.SkipRead(fill + rest, t, |entries|, alloc) == Ok(rest)
  {
    Sub.ActionsRoundTrip(entries, t, Sub.SkipWrite(t, |entries|, alloc).value + rest);
    Sub.SkipRoundTrip(t, |entries|, alloc, rest);
  }

  /** The encoding splits into the prefix and the extension after it. */
  lemma SplitAtPrefix(x: Scheduler, t: Target, e: Endian, rest: bytes)
    requires Serializable(x, t)
    ensures var w := Serialize(x, t, e).value;
            w + rest == Base.Serialize(x.base, TypeCode(x), e) + (w[Base.Size..] + rest)
  {
    var w := Serialize(x, t, e).value;
    assert w == w[..Base.Size] + w[Base.Size..];
  }

  lemma RoundTrip1(x: Scheduler, y: Scheduler, t: Target, e: Endian, rest: bytes)
    requires x.Unknown1? && WellFormed(x, t) && y.Unknown1?
    ensures Deserialize(y, Serialize(x, t, e).value + rest, t, e) == Ok(Parsed(x, rest))
  {
    var ext := Write1(x.generatorId, x.elementId, x.unknown14, e);
    assert Serialize(x, t, e).value[Base.Size..] == ext;
    SplitAtPrefix(x, t, e, rest);
    Base.RoundTrip(x.base, TypeCode(x), e, ext + rest);
    Read1RoundTrip(x.generatorId, x.elementId, x.unknown14, e, rest);
  }

  lemma RoundTrip2(x: Scheduler, y: Scheduler, t: Target, e: Endian, rest: bytes)
    requires x.Unknown2? && WellFormed(x, t) && y.Unknown2?
    ensures Deserialize(y, Serialize(x, t, e).value + rest, t, e) == Ok(Parsed(x, rest))
  {
    var ext := Write2(x.entryAllocatedCount, x.entries, t).value;
    assert Serialize(x, t, e).value[Base.Size..] == ext;
    SplitAtPrefix(x, t, e, rest);
    Base.RoundTrip(x.base, TypeCode(x), e, ext + rest);
    Read2RoundTrip(x.entryAllocatedCount, x.entries, t, e, rest);
  }

  lemma RoundTrip3(x: Scheduler, y: Scheduler, t: Target, e: Endian, rest: bytes)
    requires x.Unknown3? && WellFormed(x, t) && y.Unknown3?
    ensures Deserialize(y, Serialize(x, t, e).value + rest, t, e) == Ok(Parsed(x, rest))
  {
    var ext := Write3(x.unknown10, x.unknown11, x.attachId, x.unknown1C, e);
    assert Serialize(x, t, e).value[Base.Size..] == ext;
    SplitAtPrefix(x, t, e, rest);
    Base.RoundTrip(x.base, TypeCode(x), e, ext + rest);
    Read3RoundTrip(x.unknown10, x.unknown11, x.attachId, x.unknown1C, e, rest);
  }

  /** For well-formed schedulers, Deserialize on an instance of the same
      variant restores every field and consumes exactly the written bytes. */
  lemma RoundTrip(x: Scheduler, y: Scheduler, t: Target, e: Endian, rest: bytes)
    requires WellFormed(x, t) && TypeCode(y) == TypeCode(x)
    ensures Serialize(x, t, e).Ok?
    ensures Deserialize(y, Serialize(x, t, e).value + rest, t, e) == Ok(Parsed(x, rest))
  {
    match x
    case Unknown0(_) =>
      assert Serialize(x, t, e).value == Base.Serialize(x.base, 0, e);
      Base.RoundTrip(x.base, 0, e, rest);
    case Unknown1(_, _, _, _) => RoundTrip1(x, y, t, e, rest);
    case Unknown2(_, _, _) => RoundTrip2(x, y, t, e, rest);
    case Unknown3(_, _, _, _, _) => RoundTrip3(x, y, t, e, rest);
  }

  /** Serialize writes illegal prefix flags, and Deserialize then refuses them. */
  lemma IllegalFlagsRejected(x: Scheduler, t: Target, e: Endian, rest: bytes)
    requires Serializable(x, t) && !Base.LegalFlags(x.base)
    ensures Serialize(x, t, e).Ok?
    ensures Deserialize(x, Serialize(x, t, e).value + rest, t, e) == Err(Format)
  {
    var prefix := Base.Serialize(x.base, TypeCode(x), e);
    var w := Serialize(x, t, e).value;
    var ext := w[Base.Size..];
    assert w == prefix + ext;
    assert w + rest == prefix + (ext + rest);
    Base.IllegalFlagsRejectedOnRead(x.base, TypeCode(x), e, ext + rest);
  }

  /** A live count above the allocated count is a format error. */
  lemma LiveAboveAllocatedRejected(x: Scheduler, s: bytes, t: Target, e: Endian)
    requires x.Unknown2? && Base.Deserialize(s, e).Ok?
    requires var r := Base.Deserialize(s, e).value.rest;
             |r| >= 4 && r[0] > r[1] && r[2] == 0 && r[3] == 0
    ensures Deserialize(x, s, t, e) == Err(Format)
  {
  }
}

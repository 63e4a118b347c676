/** SchedulerBase: the 16-byte prefix every scheduler variant starts with. */
module SchedulerBase {
  import opened Wrappers
  import opened Bytes
  import Padding

  datatype BaseFields = BaseFields(id: byte, unknown2: byte, unknown5: byte,
                                   timelineStart: s32, timelineEnd: s32)

  /** The values Deserialize accepts: Unknown2 in {0, 1}, Unknown5 in {0, 1, 3}. */
  predicate LegalFlags(b: BaseFields) {
    && (b.unknown2 == 0 || b.unknown2 == 1)
    && (b.unknown5 == 0 || b.unknown5 == 1 || b.unknown5 == 3)
  }

  const Size: nat := 16

  /** Id, Type, Unknown2, two zero bytes, Unknown5, two zero bytes and the two
      timeline bounds. The flags are written unchecked. */
  function Serialize(b: BaseFields, typeCode: byte, e: Endian): (r: bytes)
    ensures |r| == Size
    ensures r[0] == b.id && r[1] == typeCode && r[2] == b.unknown2 && r[5] == b.unknown5
    ensures r[3] == 0 && r[4] == 0 && r[6] == 0 && r[7] == 0
  {
    [b.id, typeCode, b.unknown2] + Padding.SkipWrite(2) + [b.unknown5] + Padding.SkipWrite(2)
      + EncodeS32(b.timelineStart, e) + EncodeS32(b.timelineEnd, e)
  }

  /** Reads the same layout; the type byte is read and discarded. The flag
      check runs only after all 16 bytes have been read. */
  function Deserialize(s: bytes, e: Endian): (r: Result<Parsed<BaseFields>>)
    ensures r.Ok? ==> |s| >= Size && r.value.rest == s[Size..]
    ensures r.Ok? ==> LegalFlags(r.value.value) && r.value.value.id == s[0]
  {
    var id :- ReadU8(s);
    var typ :- ReadU8(id.rest);
    var unknown2 :- ReadU8(typ.rest);
    var pad0 :- Padding.SkipRead(unknown2.rest, 2);
    var unknown5 :- ReadU8(pad0);
    var pad1 :- Padding.SkipRead(unknown5.rest, 2);
    var start :- ReadS32(pad1, e);
    var end :- ReadS32(start.rest, e);
    var b := BaseFields(id.value, unknown2.value, unknown5.value, start.value, end.value);
    if !LegalFlags(b) then Err(Format) else Ok(Parsed(b, end.rest))
  }

  /** The body of the round trip: any flags come back, the check aside. */
  lemma ReadsWhatWasWritten(b: BaseFields, typeCode: byte, e: Endian, rest: bytes)
    ensures Deserialize(Serialize(b, typeCode, e) + rest, e)
         == if LegalFlags(b) then Ok(Parsed(b, rest)) else Err(Format)
  {
    var t1 := EncodeS32(b.timelineEnd, e) + rest;
    var t0 := EncodeS32(b.timelineStart, e) + t1;
    var p1 := Padding.SkipWrite(2) + t0;
    var u5 := [b.unknown5] + p1;
    var p0 := Padding.SkipWrite(2) + u5;
    var u2 := [b.unknown2] + p0;
    var ty := [typeCode] + u2;
    SerializeShape(b, typeCode, e, rest);
    U8RoundTrip(b.id, ty);
    U8RoundTrip(typeCode, u2);
    U8RoundTrip(b.unknown2, p0);
    Padding.SkipRoundTrip(2, u5);
    U8RoundTrip(b.unknown5, p1);
    Padding.SkipRoundTrip(2, t0);
    S32RoundTrip(b.timelineStart, e, t1);
    S32RoundTrip(b.timelineEnd, e, rest);
    var r0 := ReadU8([b.id] + ty);
    assert r0 == Ok(Parsed(b.id, ty));
    var r1 := ReadU8(r0.value.rest);
    assert r1 == Ok(Parsed(typeCode, u2));
    var r2 := ReadU8(r1.value.rest);
    assert r2 == Ok(Parsed(b.unknown2, p0));
    var r3 := Padding.SkipRead(r2.value.rest, 2);
    assert r3 == Ok(u5);
    var r4 := ReadU8(r3.value);
    assert r4 == Ok(Parsed(b.unknown5, p1));
    var r5 := Padding.SkipRead(r4.value.rest, 2);
    assert r5 == Ok(t0);
    var r6 := ReadS32(r5.value, e);
    assert r6 == Ok(Parsed(b.timelineStart, t1));
    var r7 := ReadS32(r6.value.rest, e);
    assert r7 == Ok(Parsed(b.timelineEnd, rest));
  }

  /** The serialized prefix followed by `rest`, as nested single fields. */
  lemma SerializeShape(b: BaseFields, typeCode: byte, e: Endian, rest: bytes)
    ensures Serialize(b, typeCode, e) + rest
         == [b.id] + ([typeCode] + ([b.unknown2] + (Padding.SkipWrite(2) + ([b.unknown5]
              + (Padding.SkipWrite(2) + (EncodeS32(b.timelineStart, e)
              + (EncodeS32(b.timelineEnd, e) + rest)))))))
  {
  }

  /** For legal flags, Deserialize(Serialize(x)) restores every field and
      consumes exactly the 16 bytes. */
  lemma RoundTrip(b: BaseFields, typeCode: byte, e: Endian, rest: bytes)
    requires LegalFlags(b)
    ensures Deserialize(Serialize(b, typeCode, e) + rest, e) == Ok(Parsed(b, rest))
  {
    ReadsWhatWasWritten(b, typeCode, e, rest);
  }

  /** Serialize does not check the flags: illegal flags are written, and then
      refused on the way back. */
  lemma IllegalFlagsRejectedOnRead(b: BaseFields, typeCode: byte, e: Endian, rest: bytes)
    requires !LegalFlags(b)
    ensures Deserialize(Serialize(b, typeCode, e) + rest, e) == Err(Format)
  {
    ReadsWhatWasWritten(b, typeCode, e, rest);
  }

  /** A non-zero byte in either padding pair is a format error. */
  lemma PaddingRejected(s: bytes, e: Endian)
    requires |s| >= Size
    requires s[3] != 0 || s[4] != 0 || s[6] != 0 || s[7] != 0
    ensures Deserialize(s, e) == Err(Format)
  {
    assert s[1..][1..][1..] == s[3..];
    if s[3] != 0 || s[4] != 0 {
      Padding.NonZeroRejected(s[3..], 2, if s[3] != 0 then 0 else 1);
    } else {
      assert s[3..][..2] == [0, 0];
      assert s[3..][2..] == s[5..];
      assert s[5..][1..] == s[6..];
      Padding.NonZeroRejected(s[6..], 2, if s[6] != 0 then 0 else 1);
    }
  }

  /** The type byte at offset 1 does not influence the result. */
  lemma TypeByteIgnored(s: bytes, t: byte, e: Endian)
    requires |s| >= 2
    ensures Deserialize(s[1 := t], e) == Deserialize(s, e)
  {
    assert s[1 := t][2..] == s[2..];
    assert s[1 := t][1..][1..] == s[1..][1..];
  }
}

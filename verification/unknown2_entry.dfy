/** Schedulers/Unknown2Entry: the newer entry layout of the Unknown2 scheduler,
    a type byte, a zero byte, a u16 timeline start and a version-sized payload. */
module Unknown2Entries {
  import opened Wrappers
  import opened Bytes
  import opened Targets
  import Padding
  import SchedulerUnknown2Sub

  /** `Payload` is a nullable array in the source. */
  datatype Entry = Entry(etype: byte, timelineStart: u16, payload: Option<bytes>)

  /** 12 payload bytes before version 11, 16 from version 11 on. */
  function PayloadSize(t: Target): nat {
    if t.version < 11 then 12 else 16
  }

  /** The bytes one entry occupies: type, zero, u16 and the payload. */
  function EntrySize(t: Target): nat {
    4 + PayloadSize(t)
  }

  predicate WellFormed(x: Entry, t: Target) {
    x.payload.Some? && |x.payload.value| == PayloadSize(t)
  }

  /** `Read`: short input is a slice out of range, a non-zero byte at offset 1
      a format error. */
  function Read(s: bytes, t: Target, e: Endian): (r: Result<Parsed<Entry>>)
    ensures r.Ok? <==> |s| >= EntrySize(t) && s[1] == 0
    ensures r.Ok? ==> r.value.rest == s[EntrySize(t)..] && WellFormed(r.value.value, t)
    ensures r.Ok? ==> r.value.value.etype == s[0] && r.value.value.payload == Some(s[4..EntrySize(t)])
    ensures |s| < EntrySize(t) && (|s| < 2 || s[1] == 0) ==> r == Err(ArgumentOutOfRange)
    ensures |s| >= 2 && s[1] != 0 ==> r == Err(Format)
  {
    var ty :- ReadU8(s);
    assert |s| >= 2 ==> ty.rest[..1] == [s[1]];
    var pad :- Padding.SkipRead(ty.rest, 1);
    var start :- ReadU16(pad, e);
    var payload :- ReadBytes(start.rest, PayloadSize(t));
    assert s[4..][..PayloadSize(t)] == s[4..EntrySize(t)];
    Ok(Parsed(Entry(ty.value, start.value, Some(payload.value)), payload.rest))
  }

  /** `Write`: a missing or wrongly sized payload is refused before anything is
      written. */
  function Write(x: Entry, t: Target, e: Endian): (r: Result<bytes>)
    ensures r.Ok? <==> WellFormed(x, t)
    ensures r.Err? ==> r.error == InvalidOperation
    ensures r.Ok? ==> |r.value| == EntrySize(t) && r.value[0] == x.etype && r.value[1] == 0
                      && r.value[2..4] == EncodeU16(x.timelineStart, e)
                      && r.value[4..] == x.payload.value
  {
    if x.payload.None? || |x.payload.value| != PayloadSize(t) then Err(InvalidOperation)
    else Ok([x.etype] + Padding.SkipWrite(1) + EncodeU16(x.timelineStart, e) + x.payload.value)
  }

  lemma RoundTrip(x: Entry, t: Target, e: Endian, rest: bytes)
    requires WellFormed(x, t)
    ensures Write(x, t, e).Ok?
    ensures Read(Write(x, t, e).value + rest, t, e) == Ok(Parsed(x, rest))
  {
    var w := Write(x, t, e).value;
    var s := w + rest;
    assert s == [x.etype] + (Padding.SkipWrite(1) + (EncodeU16(x.timelineStart, e) + (x.payload.value + rest)));
    U8RoundTrip(x.etype, s[1..]);
    Padding.SkipRoundTrip(1, s[2..]);
    U16RoundTrip(x.timelineStart, e, x.payload.value + rest);
    BytesRoundTrip(x.payload.value, rest);
  }

  /** One entry occupies exactly one SchedulerUnknown2Sub action slot. */
  lemma EntryMatchesAction(t: Target)
    ensures EntrySize(t) == SchedulerUnknown2Sub.ActionSize(t)
  {
  }

  // ---------------------------------------------------------------- unused slots, as written

  /** The slot size `Skip` uses, `1 + 1 + payloadSize`. */
  function AsWrittenSlotSize(t: Target): nat {
    1 + 1 + PayloadSize(t)
  }

  /** Writer `Skip` as written: `(allocated - count) * (2 + payloadSize)` zero
      bytes, or the writer refusing a negative size. */
  function AsWrittenSkipWrite(t: Target, count: int, allocatedCount: int): (r: Result<bytes>)
    ensures r.Ok? <==> count <= allocatedCount
    ensures r.Ok? ==> |r.value| == (allocatedCount - count) * AsWrittenSlotSize(t) && Padding.AllZero(r.value)
  {
    var n := (allocatedCount - count) * AsWrittenSlotSize(t);
    if n < 0 then Err(ArgumentOutOfRange) else Ok(Padding.SkipWrite(n))
  }

  /** Reader `Skip` as written, the same size on the reading side. */
  function AsWrittenSkipRead(s: bytes, t: Target, count: int, allocatedCount: int): (r: Result<bytes>)
    ensures r.Ok? <==> count <= allocatedCount && (allocatedCount - count) * AsWrittenSlotSize(t) <= |s|
                       && Padding.AllZero(s[..(allocatedCount - count) * AsWrittenSlotSize(t)])
    ensures r.Ok? ==> r.value == s[(allocatedCount - count) * AsWrittenSlotSize(t)..]
  {
    var n := (allocatedCount - count) * AsWrittenSlotSize(t);
    if n < 0 then Err(ArgumentOutOfRange) else Padding.SkipRead(s, n)
  }

  /** Each unused slot comes out two bytes shorter than an entry. */
  lemma AsWrittenSkipShortfall(t: Target, count: int, allocatedCount: int)
    requires count <= allocatedCount
    ensures AsWrittenSkipWrite(t, count, allocatedCount).Ok?
    ensures |AsWrittenSkipWrite(t, count, allocatedCount).value| + 2 * (allocatedCount - count)
         == (allocatedCount - count) * EntrySize(t)
  {
  }

  /** Version 8, no live entry, one allocated: the filler is 14 bytes where the
      slot is 16. */
  lemma AsWrittenSkipCounterexample()
    ensures var t := Target(FinalFantasyXII, 8);
            && |AsWrittenSkipWrite(t, 0, 1).value| == 14
            && 1 * EntrySize(t) == 16
  {
  }

  // ---------------------------------------------------------------- unused slots, corrected

  /** Writer skip with the entry's own size, `(allocated - count) * (4 + payloadSize)`. */
  function SkipWrite(t: Target, count: int, allocatedCount: int): (r: Result<bytes>)
    ensures r.Ok? <==> count <= allocatedCount
    ensures r.Ok? ==> |r.value| == (allocatedCount - count) * EntrySize(t) && Padding.AllZero(r.value)
  {
    var n := (allocatedCount - count) * EntrySize(t);
    if n < 0 then Err(ArgumentOutOfRange) else Ok(Padding.SkipWrite(n))
  }

  function SkipRead(s: bytes, t: Target, count: int, allocatedCount: int): (r: Result<bytes>)
    ensures r.Ok? <==> count <= allocatedCount && (allocatedCount - count) * EntrySize(t) <= |s|
                       && Padding.AllZero(s[..(allocatedCount - count) * EntrySize(t)])
    ensures r.Ok? ==> r.value == s[(allocatedCount - count) * EntrySize(t)..]
  {
    var n := (allocatedCount - count) * EntrySize(t);
    if n < 0 then Err(ArgumentOutOfRange) else Padding.SkipRead(s, n)
  }

  /** The live entries followed by the corrected filler. */
  function WriteTable(xs: seq<Entry>, t: Target, e: Endian, allocatedCount: int): (r: Result<bytes>)
    ensures r.Ok? <==> |xs| <= allocatedCount && forall i :: 0 <= i < |xs| ==> WellFormed(xs[i], t)
  {
    var live :- WriteMany(xs, (x: Entry) => Write(x, t, e));
    var fill :- SkipWrite(t, |xs|, allocatedCount);
    Ok(live + fill)
  }

  function ReadTable(s: bytes, t: Target, e: Endian, count: nat, allocatedCount: int): (r: Result<Parsed<seq<Entry>>>)
    ensures r.Ok? ==> |r.value.value| == count
  {
    var live :- ReadMany(s, count, (x: bytes) => Read(x, t, e));
    var rest :- SkipRead(live.rest, t, count, allocatedCount);
    Ok(Parsed(live.value, rest))
  }

  /** With the corrected filler a table always spans `allocated` whole slots. */
  lemma TableTotal(xs: seq<Entry>, t: Target, e: Endian, allocatedCount: int)
    requires |xs| <= allocatedCount && forall i :: 0 <= i < |xs| ==> WellFormed(xs[i], t)
    ensures WriteTable(xs, t, e, allocatedCount).Ok?
    ensures |WriteTable(xs, t, e, allocatedCount).value| == allocatedCount * EntrySize(t)
  {
    WriteManyLength(xs, (x: Entry) => Write(x, t, e), EntrySize(t));
  }

  lemma TableRoundTrip(xs: seq<Entry>, t: Target, e: Endian, allocatedCount: int, rest: bytes)
    requires |xs| <= allocatedCount && forall i :: 0 <= i < |xs| ==> WellFormed(xs[i], t)
    ensures WriteTable(xs, t, e, allocatedCount).Ok?
    ensures ReadTable(WriteTable(xs, t, e, allocatedCount).value + rest, t, e, |xs|, allocatedCount)
         == Ok(Parsed(xs, rest))
  {
    var read := (x: bytes) => Read(x, t, e);
    var write := (x: Entry) => Write(x, t, e);
    forall i | 0 <= i < |xs|
      ensures Inverse(read, write, xs[i])
    {
      forall rest': bytes
        ensures read(write(xs[i]).value + rest') == Ok(Parsed(xs[i], rest'))
      {
        RoundTrip(xs[i], t, e, rest');
      }
    }
    var live := WriteMany(xs, write).value;
    var fill := SkipWrite(t, |xs|, allocatedCount).value;
    assert live + fill + rest == live + (fill + rest);
    ManyRoundTrip(xs, fill + rest, read, write);
    Padding.SkipRoundTrip((allocatedCount - |xs|) * EntrySize(t), rest);
  }
}

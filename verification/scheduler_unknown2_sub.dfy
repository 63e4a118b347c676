/** SchedulerUnknown2Sub: one version-sized action slot of a SchedulerUnknown2,
    a type byte followed by raw bytes. */
module SchedulerUnknown2Sub {
  import opened Wrappers
  import opened Bytes
  import opened Targets
  import Padding

  /** `Unknown` is a nullable array in the source. */
  datatype Action = Action(atype: byte, unknown: Option<bytes>)

  /** 16 bytes per action before version 11, 20 from version 11 on. */
  function ActionSize(t: Target): nat {
    if t.version < 11 then 16 else 20
  }

  /** The actions Write accepts: `Unknown` present and one byte shorter than
      the action. */
  predicate WellFormed(a: Action, t: Target) {
    a.unknown.Some? && |a.unknown.value| == ActionSize(t) - 1
  }

  /** `Read`: the type byte, then the next actionSize - 1 bytes copied out. */
  function Read(s: bytes, t: Target): (r: Result<Parsed<Action>>)
    ensures r.Ok? <==> |s| >= ActionSize(t)
    ensures r.Ok? ==> r.value == Parsed(Action(s[0], Some(s[1..ActionSize(t)])), s[ActionSize(t)..])
    ensures r.Err? ==> r.error == ArgumentOutOfRange
    ensures r.Ok? ==> WellFormed(r.value.value, t)
  {
    var ty :- ReadU8(s);
    var body :- ReadBytes(ty.rest, ActionSize(t) - 1);
    assert s[1..][..ActionSize(t) - 1] == s[1..ActionSize(t)];
    Ok(Parsed(Action(ty.value, Some(body.value)), body.rest))
  }

  /** `Write`: a missing or wrongly sized `Unknown` is refused before anything
      is written. */
  function Write(a: Action, t: Target): (r: Result<bytes>)
    ensures r.Ok? <==> WellFormed(a, t)
    ensures r.Err? ==> r.error == InvalidOperation
    ensures r.Ok? ==> |r.value| == ActionSize(t) && r.value[0] == a.atype
                      && r.value[1..] == a.unknown.value
  {
    if a.unknown.None? || |a.unknown.value| != ActionSize(t) - 1 then Err(InvalidOperation)
    else Ok([a.atype] + a.unknown.value)
  }

  lemma RoundTrip(a: Action, t: Target, rest: bytes)
    requires WellFormed(a, t)
    ensures Write(a, t).Ok?
    ensures Read(Write(a, t).value + rest, t) == Ok(Parsed(a, rest))
  {
    var w := Write(a, t).value;
    assert (w + rest)[1..ActionSize(t)] == a.unknown.value;
    assert (w + rest)[ActionSize(t)..] == rest;
  }

  /** Writing back what was read reproduces the consumed bytes exactly. */
  lemma WriteOfRead(s: bytes, t: Target)
    requires |s| >= ActionSize(t)
    ensures Read(s, t).Ok? && Write(Read(s, t).value.value, t) == Ok(s[..ActionSize(t)])
  {
    var a := Read(s, t).value.value;
    assert [a.atype] + a.unknown.value == s[..ActionSize(t)];
  }

  /** The unused slots, `(allocatedCount - count) * actionSize` bytes. */
  function SkipSize(t: Target, count: int, allocatedCount: int): int {
    (allocatedCount - count) * ActionSize(t)
  }

  /** Writer `Skip`: zero fill for the unused slots. A negative size is the
      writer's `GetSpan` refusing a negative hint. */
  function SkipWrite(t: Target, count: int, allocatedCount: int): (r: Result<bytes>)
    ensures r.Ok? <==> count <= allocatedCount
    ensures r.Ok? ==> |r.value| == (allocatedCount - count) * ActionSize(t) && Padding.AllZero(r.value)
  {
    var n := SkipSize(t, count, allocatedCount);
    if n < 0 then Err(ArgumentOutOfRange) else Ok(Padding.SkipWrite(n))
  }

  /** Reader `Skip`: the unused slots must be present and all zero. */
  function SkipRead(s: bytes, t: Target, count: int, allocatedCount: int): (r: Result<bytes>)
    ensures r.Ok? <==> count <= allocatedCount && (allocatedCount - count) * ActionSize(t) <= |s|
                       && Padding.AllZero(s[..(allocatedCount - count) * ActionSize(t)])
    ensures r.Ok? ==> r.value == s[(allocatedCount - count) * ActionSize(t)..]
  {
    var n := SkipSize(t, count, allocatedCount);
    if n < 0 then Err(ArgumentOutOfRange) else Padding.SkipRead(s, n)
  }

  lemma SkipRoundTrip(t: Target, count: int, allocatedCount: int, rest: bytes)
    requires count <= allocatedCount
    ensures SkipWrite(t, count, allocatedCount).Ok?
    ensures SkipRead(SkipWrite(t, count, allocatedCount).value + rest, t, count, allocatedCount) == Ok(rest)
  {
    Padding.SkipRoundTrip(SkipSize(t, count, allocatedCount), rest);
  }

  // ---------------------------------------------------------------- the action table

  /** The `count` live actions, read one after another. */
  function ReadActions(s: bytes, t: Target, count: nat): (r: Result<Parsed<seq<Action>>>)
    ensures r.Ok? ==> |r.value.value| == count
  {
    ReadMany(s, count, (x: bytes) => Read(x, t))
  }

  /** The live actions, written one after another. */
  function WriteActions(xs: seq<Action>, t: Target): (r: Result<bytes>)
    ensures r.Ok? <==> forall i :: 0 <= i < |xs| ==> WellFormed(xs[i], t)
  {
    WriteMany(xs, (a: Action) => Write(a, t))
  }

  /** Live actions followed by the writer's filler: `allocatedCount` slots of
      actionSize bytes in all. */
  lemma SlotsTotal(xs: seq<Action>, t: Target, count: nat, allocatedCount: int)
    requires forall i :: 0 <= i < |xs| ==> WellFormed(xs[i], t)
    requires count == |xs| <= allocatedCount
    ensures WriteActions(xs, t).Ok? && SkipWrite(t, count, allocatedCount).Ok?
    ensures var table := WriteActions(xs, t).value + SkipWrite(t, count, allocatedCount).value;
            |table| == allocatedCount * ActionSize(t)
  {
    WriteManyLength(xs, (a: Action) => Write(a, t), ActionSize(t));
  }

  lemma ActionsRoundTrip(xs: seq<Action>, t: Target, rest: bytes)
    requires forall i :: 0 <= i < |xs| ==> WellFormed(xs[i], t)
    ensures WriteActions(xs, t).Ok?
    ensures ReadActions(WriteActions(xs, t).value + rest, t, |xs|) == Ok(Parsed(xs, rest))
  {
    var read := (x: bytes) => Read(x, t);
    var write := (a: Action) => Write(a, t);
    forall i | 0 <= i < |xs|
      ensures Inverse(read, write, xs[i])
    {
      forall rest': bytes
        ensures read(write(xs[i]).value + rest') == Ok(Parsed(xs[i], rest'))
      {
        RoundTrip(xs[i], t, rest');
      }
    }
    ManyRoundTrip(xs, rest, read, write);
  }
}

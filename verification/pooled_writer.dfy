/** `PooledArrayBufferWriter<T>`: one array rented from the shared pool and
    the count of elements written to its front. */
module PooledWriters {
  import opened Wrappers
  import opened Pool

  const DefaultInitialBufferSize: nat := 4096 * 2

  datatype Writer<T> = Writer(buffer: seq<T>, index: int)

  /** 0 <= index <= buffer length. */
  predicate Valid<T>(w: Writer<T>) {
    0 <= w.index <= |w.buffer|
  }

  /** The constructor. */
  function New<T>(rent: nat -> seq<T>): (r: Writer<T>)
    requires Rents(rent)
    ensures Valid(r) && r.index == 0 && |r.buffer| >= DefaultInitialBufferSize
  {
    Writer(rent(DefaultInitialBufferSize), 0)
  }

  /** `WrittenSpan` (and `WrittenMemory`). */
  function WrittenSpan<T>(w: Writer<T>): (r: seq<T>)
    requires Valid(w)
    ensures |r| == WrittenCount(w) && r == w.buffer[..w.index]
  {
    w.buffer[..w.index]
  }

  function WrittenCount<T>(w: Writer<T>): (r: nat)
    requires Valid(w)
    ensures r <= Capacity(w)
  {
    w.index
  }

  function Capacity<T>(w: Writer<T>): nat {
    |w.buffer|
  }

  function FreeCapacity<T>(w: Writer<T>): (r: nat)
    requires Valid(w)
    ensures WrittenCount(w) + r == Capacity(w)
  {
    |w.buffer| - w.index
  }

  /** `Clear`: a fresh rented array and nothing written. */
  function Clear<T>(w: Writer<T>, rent: nat -> seq<T>): (r: Writer<T>)
    requires Rents(rent)
    ensures Valid(r) && WrittenSpan(r) == [] && Capacity(r) >= DefaultInitialBufferSize
  {
    New(rent)
  }

  /** `Advance`: a negative count is out of range, going past the end of
      the buffer is an invalid operation. */
  function Advance<T>(w: Writer<T>, count: int): (r: Result<Writer<T>>)
    requires Valid(w)
    ensures r.Ok? <==> 0 <= count <= FreeCapacity(w)
    ensures count < 0 ==> r == Err(ArgumentOutOfRange)
    ensures count >= 0 && count > FreeCapacity(w) ==> r == Err(InvalidOperation)
    ensures r.Ok? ==> Valid(r.value) && r.value.buffer == w.buffer
    ensures r.Ok? ==> WrittenCount(r.value) == WrittenCount(w) + count
  {
    if count < 0 then Err(ArgumentOutOfRange)
    else if w.index > |w.buffer| - count then Err(InvalidOperation)
    else Ok(w.(index := w.index + count))
  }

  /** The hint after `sizeHint == 0` is taken as 1. */
  function Effective(hint: nat): (r: nat)
    ensures r >= 1 && r >= hint && (hint > 0 ==> r == hint)
  {
    if hint == 0 then 1 else hint
  }

  /** `CheckAndResizeBuffer`: when the effective hint does not fit, rent an
      array of the current length plus the larger of the hint and the
      current length, and copy the written elements over. */
  function CheckAndResize<T>(w: Writer<T>, sizeHint: int, rent: nat -> seq<T>): (r: Result<Writer<T>>)
    requires Valid(w) && Rents(rent)
    ensures r.Ok? <==> sizeHint >= 0
    ensures r.Err? ==> r.error == ArgumentOutOfRange
    ensures r.Ok? ==> Valid(r.value) && r.value.index == w.index
    ensures r.Ok? ==> WrittenSpan(r.value) == WrittenSpan(w)
    ensures r.Ok? ==> FreeCapacity(r.value) >= Effective(sizeHint)
    ensures r.Ok? && Effective(sizeHint) <= FreeCapacity(w) ==> r.value == w
    ensures r.Ok? && Effective(sizeHint) > FreeCapacity(w)
            ==> Capacity(r.value) >= Capacity(w) + Max(Effective(sizeHint), Capacity(w))
  {
    if sizeHint < 0 then Err(ArgumentOutOfRange)
    else
      var hint := Effective(sizeHint);
      if hint > |w.buffer| - w.index then
        var temp := rent(|w.buffer| + Max(hint, |w.buffer|));
        Ok(Writer(w.buffer[..w.index] + temp[w.index..], w.index))
      else Ok(w)
  }

  /** `GetSpan` (and `GetMemory`, the same region as memory): resize, then
      the unwritten part of the buffer. */
  function GetSpan<T>(w: Writer<T>, sizeHint: int, rent: nat -> seq<T>): (r: Result<(Writer<T>, seq<T>)>)
    requires Valid(w) && Rents(rent)
    ensures r.Ok? <==> sizeHint >= 0
    ensures r.Err? ==> r.error == ArgumentOutOfRange
    ensures r.Ok? ==> Valid(r.value.0) && WrittenSpan(r.value.0) == WrittenSpan(w)
    ensures r.Ok? ==> WrittenSpan(r.value.0) + r.value.1 == r.value.0.buffer
    ensures r.Ok? ==> |r.value.1| >= Effective(sizeHint)
  {
    match CheckAndResize(w, sizeHint, rent)
    case Err(err) => Err(err)
    case Ok(v) => Ok((v, v.buffer[v.index..]))
  }

  /** The caller writing `data` into the front of the span it was given. */
  function Fill<T>(w: Writer<T>, data: seq<T>): (r: Writer<T>)
    requires Valid(w) && |data| <= FreeCapacity(w)
    ensures Valid(r) && r.index == w.index && Capacity(r) == Capacity(w)
    ensures WrittenSpan(r) == WrittenSpan(w) && r.buffer[w.index..w.index + |data|] == data
  {
    var b := w.buffer[..w.index] + data + w.buffer[w.index + |data|..];
    assert b[..w.index] == w.buffer[..w.index];
    w.(buffer := b)
  }

  /** The `IBufferWriter` protocol: ask for room for the data, write it into
      the span, advance over it. */
  function Write<T>(w: Writer<T>, data: seq<T>, rent: nat -> seq<T>): (r: Writer<T>)
    requires Valid(w) && Rents(rent)
    ensures Valid(r)
  {
    var v := CheckAndResize(w, |data|, rent).value;
    Advance(Fill(v, data), |data|).value
  }

  /** Writing appends the data to what was written; nothing else changes. */
  lemma WriteAppends<T>(w: Writer<T>, data: seq<T>, rent: nat -> seq<T>)
    requires Valid(w) && Rents(rent)
    ensures WrittenSpan(Write(w, data, rent)) == WrittenSpan(w) + data
  {
    var v := CheckAndResize(w, |data|, rent).value;
    var f := Fill(v, data);
    var a := Advance(f, |data|).value;
    assert a.buffer[..a.index] == f.buffer[..w.index] + f.buffer[w.index..w.index + |data|];
  }

  /** Writes in sequence accumulate in order. */
  lemma WriteTwice<T>(w: Writer<T>, a: seq<T>, b: seq<T>, rent: nat -> seq<T>)
    requires Valid(w) && Rents(rent)
    ensures WrittenSpan(Write(Write(w, a, rent), b, rent)) == WrittenSpan(w) + a + b
  {
    WriteAppends(w, a, rent);
    WriteAppends(Write(w, a, rent), b, rent);
  }
}

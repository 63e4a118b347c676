/** `MemorySegment<T>`: one rented array of a chained writer, the count of
    its elements written so far, the count written in all earlier segments
    (`RunningIndex`), and the segment after it. Segments live in a heap of
    numbered cells so that the link between them is a reference. */
module MemorySegments {
  import opened Wrappers

  /** A cell of the segment heap. */
  type Ref = nat

  datatype Segment<T> = Segment(buffer: seq<T>, index: int, runningIndex: int, next: Option<Ref>)

  /** 0 <= Index <= buffer length. */
  predicate Valid<T>(s: Segment<T>) {
    0 <= s.index <= |s.buffer|
  }

  /** The constructor. */
  function New<T>(buffer: seq<T>): (r: Segment<T>)
    ensures Valid(r) && r.index == 0 && r.runningIndex == 0 && r.next == None
    ensures r.buffer == buffer
  {
    Segment(buffer, 0, 0, None)
  }

  function FreeCapacity<T>(s: Segment<T>): (r: int)
    requires Valid(s)
    ensures 0 <= r <= |s.buffer| && s.index + r == |s.buffer|
  {
    |s.buffer| - s.index
  }

  /** `Span`: the elements written. */
  function Span<T>(s: Segment<T>): (r: seq<T>)
    requires Valid(s)
    ensures |r| == s.index && r == s.buffer[..s.index]
  {
    s.buffer[..s.index]
  }

  /** `WritableSpan`: the elements not yet written. */
  function WritableSpan<T>(s: Segment<T>): (r: seq<T>)
    requires Valid(s)
    ensures |r| == FreeCapacity(s) && Span(s) + r == s.buffer
  {
    s.buffer[s.index..]
  }

  /** `Advance`: a negative count is an ArgumentException, going past the
      end of the buffer an InvalidOperationException. */
  function Advance<T>(s: Segment<T>, count: int): (r: Result<Segment<T>>)
    requires Valid(s)
    ensures r.Ok? <==> 0 <= count <= FreeCapacity(s)
    ensures count < 0 ==> r == Err(Argument)
    ensures count >= 0 && count > FreeCapacity(s) ==> r == Err(InvalidOperation)
    ensures r.Ok? ==> Valid(r.value) && r.value.index == s.index + count
    ensures r.Ok? ==> r.value.buffer == s.buffer && r.value.runningIndex == s.runningIndex && r.value.next == s.next
  {
    if count < 0 then Err(Argument)
    else if s.index > |s.buffer| - count then Err(InvalidOperation)
    else Ok(s.(index := s.index + count))
  }

  /** The caller writing `data` into the front of the writable span, as a
      span returned by `GetSpan` is used before `Advance`. */
  function Fill<T>(s: Segment<T>, data: seq<T>): (r: Segment<T>)
    requires Valid(s) && |data| <= FreeCapacity(s)
    ensures Valid(r) && r.index == s.index && r.runningIndex == s.runningIndex && r.next == s.next
    ensures |r.buffer| == |s.buffer| && FreeCapacity(r) == FreeCapacity(s) && Span(r) == Span(s)
    ensures r.buffer[s.index..s.index + |data|] == data && WritableSpan(r)[..|data|] == data
  {
    var b := s.buffer[..s.index] + data + s.buffer[s.index + |data|..];
    assert b[..s.index] == s.buffer[..s.index];
    assert b[s.index..][..|data|] == data;
    s.(buffer := b)
  }

  /** Writing data and advancing over it appends the data to the span. */
  lemma FillThenAdvance<T>(s: Segment<T>, data: seq<T>)
    requires Valid(s) && |data| <= FreeCapacity(s)
    ensures Advance(Fill(s, data), |data|).Ok?
    ensures Span(Advance(Fill(s, data), |data|).value) == Span(s) + data
  {
    var f := Fill(s, data);
    var a := Advance(f, |data|).value;
    assert a.buffer[..a.index] == f.buffer[..s.index] + f.buffer[s.index..s.index + |data|];
  }

  /** `Append`: the new segment starts where this one's written elements
      end, and becomes this one's successor, replacing any earlier link.
      Returns this segment updated and the new one, to be stored at `at`. */
  function Append<T>(s: Segment<T>, nextBuffer: seq<T>, at: Ref): (r: (Segment<T>, Segment<T>))
    requires Valid(s)
    ensures r.0 == s.(next := Some(at))
    ensures Valid(r.1) && r.1.buffer == nextBuffer && r.1.index == 0 && r.1.next == None
    ensures r.1.runningIndex == s.runningIndex + s.index
  {
    (s.(next := Some(at)), New(nextBuffer).(runningIndex := s.runningIndex + s.index))
  }
}

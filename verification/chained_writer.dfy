/** `ChainedArrayBufferWriter<byte>`: a chain of memory segments from a head
    to a tail, the tail being the one written to. Segments are cells of a
    heap shared by every writer, because the head of every writer made by
    the constructor is the one static segment `_Empty`, cell 0. */
module ChainedWriters {
  import opened Wrappers
  import opened Bytes
  import opened Pool
  import S = MemorySegments

  type Heap = seq<S.Segment<byte>>

  const DefaultInitialBufferSize: nat := 4096 * 2

  /** The static `_Empty`: a segment over an empty array. */
  const Empty: S.Segment<byte> := S.New([])

  /** Where `_Empty` lives. */
  const EmptyRef: S.Ref := 0

  /** The heap before any writer exists. */
  const Initial: Heap := [Empty]

  datatype Writer = Writer(head: S.Ref, tail: S.Ref)

  /** Cell `i` is a valid segment with a running index that is never
      negative, linked only to a later cell, as `Append` always links to
      the cell it allocates. */
  ghost predicate CellOk(h: Heap, i: int) {
    && 0 <= i < |h|
    && S.Valid(h[i]) && h[i].runningIndex >= 0
    && (h[i].next.Some? ==> i < h[i].next.value < |h|)
  }

  /** Every cell is sound, and cell 0 stays `_Empty` apart from its link:
      nothing can be written to an empty array. */
  ghost predicate HeapOk(h: Heap) {
    && |h| > 0
    && h[EmptyRef].buffer == [] && h[EmptyRef].index == 0 && h[EmptyRef].runningIndex == 0
    && forall i :: 0 <= i < |h| ==> CellOk(h, i)
  }

  ghost predicate Refs(h: Heap, w: Writer) {
    CellOk(h, w.head) && CellOk(h, w.tail)
  }

  /** Replacing a cell by a sound one with the same link, or none, keeps
      the heap sound. */
  lemma HeapUpdate(h: Heap, i: nat, t: S.Segment<byte>)
    requires HeapOk(h) && i < |h| && S.Valid(t) && t.runningIndex >= 0
    requires t.next == h[i].next || t.next == None
    requires i == EmptyRef ==> t.buffer == [] && t.runningIndex == 0
    ensures HeapOk(h[i := t])
  {
    var h' := h[i := t];
    forall j | 0 <= j < |h'|
      ensures CellOk(h', j)
    {
      assert CellOk(h, j);
    }
  }

  /** Adding an unlinked segment keeps the heap sound. */
  lemma HeapAdd(h: Heap, n: S.Segment<byte>)
    requires HeapOk(h) && S.Valid(n) && n.runningIndex >= 0 && n.next == None
    ensures HeapOk(h + [n])
  {
    var h' := h + [n];
    forall j | 0 <= j < |h'|
      ensures CellOk(h', j)
    {
      if j < |h| {
        assert CellOk(h, j);
      }
    }
  }

  /** Appending a fresh segment after cell `i` keeps the heap sound. */
  lemma HeapGrow(h: Heap, i: nat, n: S.Segment<byte>)
    requires HeapOk(h) && i < |h| && S.Valid(n) && n.runningIndex >= 0 && n.next == None
    ensures HeapOk(h[i := h[i].(next := Some(|h|))] + [n])
  {
    var h' := h[i := h[i].(next := Some(|h|))] + [n];
    forall j | 0 <= j < |h'|
      ensures CellOk(h', j)
    {
      if j < |h| {
        assert CellOk(h, j);
      }
    }
  }

  /** The constructor: head and tail are `_Empty`. */
  function New(): (r: Writer)
    ensures r.head == EmptyRef && r.tail == EmptyRef
  {
    Writer(EmptyRef, EmptyRef)
  }

  /** `Length`: the tail's running index plus its own count. */
  function Length(h: Heap, w: Writer): (r: nat)
    requires HeapOk(h) && Refs(h, w)
  {
    h[w.tail].runningIndex + h[w.tail].index
  }

  /** `CheckAndExapandBuffer`: a hint beyond the tail's free room appends a
      segment of at least `max(hint, 8192)` elements and makes it the tail.
      A hint of 0 never grows the chain, even when the tail is full. */
  function Expand(h: Heap, w: Writer, sizeHint: int, rent: nat -> seq<byte>): (r: Result<(Heap, Writer)>)
    requires HeapOk(h) && Refs(h, w) && Rents(rent)
    ensures r.Ok? <==> sizeHint >= 0
    ensures r.Err? ==> r.error == Argument
    ensures r.Ok? ==> HeapOk(r.value.0) && Refs(r.value.0, r.value.1) && r.value.1.head == w.head
    ensures r.Ok? ==> Length(r.value.0, r.value.1) == Length(h, w)
    ensures r.Ok? ==> S.FreeCapacity(r.value.0[r.value.1.tail]) >= sizeHint
    ensures r.Ok? && sizeHint <= S.FreeCapacity(h[w.tail]) ==> r.value == (h, w)
    ensures r.Ok? && sizeHint > S.FreeCapacity(h[w.tail]) ==>
      var (h', w') := r.value;
      && |h'| == |h| + 1 && w'.tail == |h|
      && h'[w.tail] == h[w.tail].(next := Some(|h|))
      && (forall i :: 0 <= i < |h| && i != w.tail ==> h'[i] == h[i])
      && |h'[|h|].buffer| >= Max(sizeHint, DefaultInitialBufferSize)
      && h'[|h|].index == 0 && h'[|h|].next == None
  {
    if sizeHint < 0 then Err(Argument)
    else if sizeHint > S.FreeCapacity(h[w.tail]) then
      var temp := rent(Max(sizeHint, DefaultInitialBufferSize));
      var (t, n) := S.Append(h[w.tail], temp, |h|);
      HeapGrow(h, w.tail, n);
      var h' := h[w.tail := t] + [n];
      assert CellOk(h', w.head) && CellOk(h', |h|);
      Ok((h', Writer(w.head, |h|)))
    else Ok((h, w))
  }

  /** `Advance`: the tail's. */
  function Advance(h: Heap, w: Writer, count: int): (r: Result<Heap>)
    requires HeapOk(h) && Refs(h, w)
    ensures r.Ok? <==> 0 <= count <= S.FreeCapacity(h[w.tail])
    ensures count < 0 ==> r == Err(Argument)
    ensures count >= 0 && count > S.FreeCapacity(h[w.tail]) ==> r == Err(InvalidOperation)
    ensures r.Ok? ==> HeapOk(r.value) && |r.value| == |h| && Refs(r.value, w)
    ensures r.Ok? ==> Length(r.value, w) == Length(h, w) + count
    ensures r.Ok? ==> forall i :: 0 <= i < |h| && i != w.tail ==> r.value[i] == h[i]
  {
    match S.Advance(h[w.tail], count)
    case Err(err) => Err(err)
    case Ok(t) =>
      HeapUpdate(h, w.tail, t);
      var h' := h[w.tail := t];
      assert CellOk(h', w.head) && CellOk(h', w.tail);
      Ok(h')
  }

  /** `GetSpan` (and `GetMemory`): expand, then the tail's writable part. */
  function GetSpan(h: Heap, w: Writer, sizeHint: int, rent: nat -> seq<byte>): (r: Result<(Heap, Writer, bytes)>)
    requires HeapOk(h) && Refs(h, w) && Rents(rent)
    ensures r.Ok? <==> sizeHint >= 0
    ensures r.Ok? ==> HeapOk(r.value.0) && Refs(r.value.0, r.value.1) && |r.value.2| >= sizeHint
  {
    match Expand(h, w, sizeHint, rent)
    case Err(err) => Err(err)
    case Ok((h', w')) => Ok((h', w', S.WritableSpan(h'[w'.tail])))
  }

  /** The caller writing into the span `GetSpan` returned. */
  function Fill(h: Heap, w: Writer, data: bytes): (r: Heap)
    requires HeapOk(h) && Refs(h, w) && |data| <= S.FreeCapacity(h[w.tail])
    ensures HeapOk(r) && |r| == |h| && Refs(r, w) && Length(r, w) == Length(h, w)
    ensures forall i :: 0 <= i < |h| && i != w.tail ==> r[i] == h[i]
    ensures S.Span(r[w.tail]) == S.Span(h[w.tail]) && r[w.tail].next == h[w.tail].next
    ensures S.FreeCapacity(r[w.tail]) == S.FreeCapacity(h[w.tail])
    ensures S.WritableSpan(r[w.tail])[..|data|] == data
  {
    var t := S.Fill(h[w.tail], data);
    assert |t.buffer| == |h[w.tail].buffer|;
    HeapUpdate(h, w.tail, t);
    var h' := h[w.tail := t];
    assert CellOk(h', w.head) && CellOk(h', w.tail);
    h'
  }

  /** The `IBufferWriter` protocol: room for the data, the data, advance. */
  function Write(h: Heap, w: Writer, data: bytes, rent: nat -> seq<byte>): (r: (Heap, Writer))
    requires HeapOk(h) && Refs(h, w) && Rents(rent)
    ensures HeapOk(r.0) && Refs(r.0, r.1) && r.1.head == w.head
    ensures Length(r.0, r.1) == Length(h, w) + |data|
    ensures |r.0| >= |h| && forall i :: 0 <= i < |h| && i != w.tail ==> r.0[i] == h[i]
  {
    var (h1, w1) := Expand(h, w, |data|, rent).value;
    var h2 := Fill(h1, w1, data);
    (Advance(h2, w1, |data|).value, w1)
  }

  /** `CopyTo`'s walk: each segment's written elements in chain order, into
      the front of what is left of the destination. `Span.CopyTo` into a
      shorter destination is an ArgumentException. */
  function CopyChain(h: Heap, cur: Option<S.Ref>, dest: bytes): (r: Result<bytes>)
    requires HeapOk(h) && (cur.Some? ==> cur.value < |h|)
    ensures r.Ok? ==> |r.value| == |dest|
    ensures r.Err? ==> r.error == Argument
    decreases if cur.Some? then |h| - cur.value else 0
  {
    if cur.None? then Ok(dest)
    else
      assert CellOk(h, cur.value);
      var sp := S.Span(h[cur.value]);
      if |sp| > |dest| then Err(Argument)
      else
        match CopyChain(h, h[cur.value].next, dest[|sp|..])
        case Err(err) => Err(err)
        case Ok(rest) => Ok(sp + rest)
  }

  /** `CopyTo`: a destination shorter than `Length` is refused up front;
      the walk starts after the head. The copy is returned as the new
      contents of the destination. */
  function CopyTo(h: Heap, w: Writer, dest: bytes): (r: Result<bytes>)
    requires HeapOk(h) && Refs(h, w)
    ensures Length(h, w) > |dest| ==> r == Err(Aggregate)
    ensures r.Ok? ==> |r.value| == |dest|
  {
    if Length(h, w) > |dest| then Err(Aggregate)
    else CopyChain(h, h[w.head].next, dest)
  }

  /** `ToArray`: a zeroed array of `Length` elements, copied into. */
  function ToArray(h: Heap, w: Writer): (r: Result<bytes>)
    requires HeapOk(h) && Refs(h, w)
    ensures r.Ok? ==> |r.value| == Length(h, w)
  {
    CopyTo(h, w, seq(Length(h, w), _ => 0))
  }

  /** `Clear` as written: head and tail back to `_Empty`. Returning the
      arrays has no effect, and `_Empty` keeps its link to the segment
      appended after it. */
  function Clear(h: Heap, w: Writer): (r: Writer)
    requires HeapOk(h) && Refs(h, w)
    ensures Refs(h, r) && Length(h, r) == 0
  {
    assert CellOk(h, EmptyRef);
    Writer(EmptyRef, EmptyRef)
  }

  // ---------------------------------------------------------------- one writer's chain

  /** Every cell a path names is a sound cell of the heap. */
  ghost predicate OnHeap(h: Heap, path: seq<int>) {
    forall i :: 0 <= i < |path| ==> CellOk(h, path[i])
  }

  /** Segment `b` follows segment `a` and counts what `a` holds. */
  ghost predicate Link(h: Heap, a: int, b: int) {
    && 0 <= a < |h| && 0 <= b < |h|
    && h[a].next == Some(b) && h[b].runningIndex == h[a].runningIndex + h[a].index
  }

  /** The cells from `path[0]` along the links, ending with no link. */
  ghost predicate Linked(h: Heap, path: seq<int>) {
    && |path| >= 1 && OnHeap(h, path)
    && (forall i :: 0 <= i < |path| - 1 ==> Link(h, path[i], path[i + 1]))
    && h[path[|path| - 1]].next == None
  }

  /** `w`'s segments are `path`: from its head, an empty array like
      `_Empty`, to its tail. */
  ghost predicate Chain(h: Heap, w: Writer, path: seq<int>) {
    && HeapOk(h) && Linked(h, path)
    && path[0] == w.head && path[|path| - 1] == w.tail
    && h[w.head].buffer == [] && h[w.head].runningIndex == 0
  }

  /** The written elements of the segments on a path, in order. */
  ghost function Content(h: Heap, path: seq<int>): (r: bytes)
    requires OnHeap(h, path)
  {
    if |path| == 0 then []
    else
      assert CellOk(h, path[0]);
      S.Span(h[path[0]]) + Content(h, path[1..])
  }

  /** A linked path ends at the running index its start reports plus all
      that its segments hold. */
  lemma {:induction false} LinkedLength(h: Heap, path: seq<int>)
    requires Linked(h, path)
    ensures var t := h[path[|path| - 1]];
      t.runningIndex + t.index == h[path[0]].runningIndex + |Content(h, path)|
    decreases |path|
  {
    if |path| > 1 {
      assert Link(h, path[0], path[1]);
      assert Linked(h, path[1..]);
      LinkedLength(h, path[1..]);
    }
  }

  /** The walk over a linked path copies its content into the front of the
      destination. */
  lemma {:induction false} CopyLinked(h: Heap, path: seq<int>, dest: bytes)
    requires HeapOk(h) && Linked(h, path) && |dest| >= |Content(h, path)|
    ensures CopyChain(h, Some(path[0]), dest) == Ok(Content(h, path) + dest[|Content(h, path)|..])
    decreases |path|
  {
    assert CellOk(h, path[0]);
    var sp := S.Span(h[path[0]]);
    if |path| == 1 {
      assert h[path[0]].next == None && path[1..] == [];
      assert Content(h, path) == sp;
      assert CopyChain(h, None, dest[|sp|..]) == Ok(dest[|sp|..]);
      assert CopyChain(h, Some(path[0]), dest) == Ok(sp + dest[|sp|..]);
    } else {
      assert Link(h, path[0], path[1]);
      assert Linked(h, path[1..]);
      var c := Content(h, path[1..]);
      assert Content(h, path) == sp + c;
      var rest := dest[|sp|..];
      CopyLinked(h, path[1..], rest);
      assert path[1..][0] == path[1] && h[path[0]].next == Some(path[1]);
      assert CopyChain(h, Some(path[1]), rest) == Ok(c + rest[|c|..]);
      assert CopyChain(h, Some(path[0]), dest) == Ok(sp + (c + rest[|c|..]));
      assert rest[|c|..] == dest[|sp + c|..];
      assert sp + (c + rest[|c|..]) == (sp + c) + dest[|sp + c|..];
    }
  }

  /** A single writer's `ToArray` is its chain's content. */
  lemma ToArrayIsContent(h: Heap, w: Writer, path: seq<int>)
    requires Chain(h, w, path)
    ensures Refs(h, w) && Length(h, w) == |Content(h, path)|
    ensures ToArray(h, w) == Ok(Content(h, path))
  {
    assert CellOk(h, path[0]) && CellOk(h, path[|path| - 1]);
    LinkedLength(h, path);
    var dest: bytes := seq(Length(h, w), _ => 0);
    assert ToArray(h, w) == CopyTo(h, w, dest);
    var c := Content(h, path[1..]);
    assert Content(h, path) == S.Span(h[w.head]) + c == c;
    if |path| > 1 {
      assert Link(h, path[0], path[1]);
      assert Linked(h, path[1..]);
      CopyLinked(h, path[1..], dest);
      assert path[1..][0] == path[1];
      assert CopyTo(h, w, dest) == CopyChain(h, Some(path[1]), dest);
      assert CopyChain(h, Some(path[1]), dest) == Ok(c + dest[|c|..]);
      assert c + dest[|c|..] == c;
    } else {
      assert h[w.head].next == None && dest == [];
      assert CopyTo(h, w, dest) == CopyChain(h, None, []);
    }
  }

  /** Links only point forward, so a path climbs and its last cell is its
      largest. */
  lemma {:induction false} PathClimbs(h: Heap, path: seq<int>, i: nat)
    requires Linked(h, path) && i < |path| - 1
    ensures path[i] < path[|path| - 1]
    decreases |path| - i
  {
    assert Link(h, path[i], path[i + 1]) && CellOk(h, path[i]);
    if i < |path| - 2 {
      PathClimbs(h, path, i + 1);
    }
  }

  /** Content depends only on the written spans along the path. */
  lemma {:induction false} ContentOfSameSpans(h: Heap, h': Heap, path: seq<int>)
    requires OnHeap(h, path) && OnHeap(h', path)
    requires forall i :: 0 <= i < |path| ==> S.Span(h'[path[i]]) == S.Span(h[path[i]])
    ensures Content(h', path) == Content(h, path)
    decreases |path|
  {
    if |path| > 0 {
      ContentOfSameSpans(h, h', path[1..]);
    }
  }

  lemma {:induction false} ContentSnoc(h: Heap, path: seq<int>, x: int)
    requires OnHeap(h, path) && CellOk(h, x)
    ensures OnHeap(h, path + [x])
    ensures Content(h, path + [x]) == Content(h, path) + S.Span(h[x])
    decreases |path|
  {
    if |path| == 0 {
      assert [x][1..] == [];
    } else {
      assert (path + [x])[1..] == path[1..] + [x];
      ContentSnoc(h, path[1..], x);
    }
  }

  /** A heap grown by one empty segment linked after the tail keeps the
      chain, extended by the new segment, and keeps its content. */
  lemma GrowKeepsChain(h: Heap, h': Heap, w: Writer, path: seq<int>)
    requires Chain(h, w, path) && HeapOk(h') && |h'| == |h| + 1
    requires h'[w.tail] == h[w.tail].(next := Some(|h|))
    requires forall i :: 0 <= i < |h| && i != w.tail ==> h'[i] == h[i]
    requires h'[|h|].index == 0 && h'[|h|].next == None
    requires h'[|h|].runningIndex == h[w.tail].runningIndex + h[w.tail].index
    ensures Chain(h', Writer(w.head, |h|), path + [|h|])
    ensures Content(h', path + [|h|]) == Content(h, path)
  {
    var path' := path + [|h|];
    forall i | 0 <= i < |path| - 1
      ensures h'[path[i]] == h[path[i]]
    {
      PathClimbs(h, path, i);
    }
    forall i | 0 <= i < |path|
      ensures CellOk(h', path[i]) && S.Span(h'[path[i]]) == S.Span(h[path[i]])
    {
      assert CellOk(h, path[i]) && CellOk(h', path[i]);
    }
    assert CellOk(h', |h|);
    ContentSnoc(h', path, |h|);
    assert Link(h', path[|path| - 1], |h|);
    assert Linked(h', path');
    ContentOfSameSpans(h, h', path);
  }

  /** Expanding keeps the chain, adding the new segment at its end, and
      keeps its content. */
  lemma ExpandKeepsChain(h: Heap, w: Writer, path: seq<int>, sizeHint: nat, rent: nat -> seq<byte>)
    requires Chain(h, w, path) && Rents(rent)
    ensures Refs(h, w) && Expand(h, w, sizeHint, rent).Ok?
    ensures var (h', w') := Expand(h, w, sizeHint, rent).value;
      var path' := if w' == w then path else path + [|h|];
      Chain(h', w', path') && Content(h', path') == Content(h, path)
  {
    assert CellOk(h, path[0]) && CellOk(h, path[|path| - 1]);
    var r := Expand(h, w, sizeHint, rent).value;
    if sizeHint > S.FreeCapacity(h[w.tail]) {
      assert r.1 == Writer(w.head, |h|) && r.1 != w;
      GrowKeepsChain(h, r.0, w, path);
    } else {
      assert r == (h, w);
    }
  }

  /** Replacing the tail by a segment with the same place in the chain
      keeps the chain, its content ending with the new segment's. */
  lemma {:induction false} UpdateTail(h: Heap, w: Writer, path: seq<int>, t: S.Segment<byte>)
    requires Chain(h, w, path) && S.Valid(t) && t.runningIndex == h[w.tail].runningIndex && t.next == None
    requires w.tail == w.head ==> t.buffer == []
    ensures Chain(h[w.tail := t], w, path)
    ensures Content(h[w.tail := t], path) == Content(h, path[..|path| - 1]) + S.Span(t)
  {
    assert CellOk(h, w.tail);
    var h' := h[w.tail := t];
    var n := |path| - 1;
    forall i | 0 <= i < n
      ensures path[i] != w.tail
    {
      PathClimbs(h, path, i);
    }
    assert CellOk(h, path[0]);
    if w.tail == EmptyRef && n > 0 {
      PathClimbs(h, path, 0);
      assert false;
    }
    HeapUpdate(h, w.tail, t);
    forall i | 0 <= i < |path|
      ensures CellOk(h', path[i])
    {
      assert CellOk(h, path[i]);
    }
    assert Linked(h', path);
    ContentOfSameSpans(h, h', path[..n]);
    assert path == path[..n] + [w.tail];
    ContentSnoc(h', path[..n], w.tail);
  }

  /** Writing into the tail's span and advancing over it extends the
      content by the data. */
  lemma FillAdvanceKeepsChain(h: Heap, w: Writer, path: seq<int>, data: bytes)
    requires Chain(h, w, path) && Refs(h, w) && |data| <= S.FreeCapacity(h[w.tail])
    ensures Advance(Fill(h, w, data), w, |data|).Ok?
    ensures var h' := Advance(Fill(h, w, data), w, |data|).value;
      Chain(h', w, path) && Content(h', path) == Content(h, path) + data
  {
    var h3 := Advance(Fill(h, w, data), w, |data|).value;
    var t := S.Advance(S.Fill(h[w.tail], data), |data|).value;
    S.FillThenAdvance(h[w.tail], data);
    assert h3 == h[w.tail := t];
    UpdateTail(h, w, path, t);
    var n := |path| - 1;
    assert path == path[..n] + [w.tail];
    ContentSnoc(h, path[..n], w.tail);
  }

  /** Writing extends the content by the data, the chain growing by the
      segment `Expand` appended, if any. */
  lemma WriteKeepsChain(h: Heap, w: Writer, path: seq<int>, data: bytes, rent: nat -> seq<byte>)
    requires Chain(h, w, path) && Rents(rent)
    ensures Refs(h, w)
    ensures var (h', w') := Write(h, w, data, rent);
      var path' := if w' == w then path else path + [|h|];
      Chain(h', w', path') && Content(h', path') == Content(h, path) + data
  {
    ExpandKeepsChain(h, w, path, |data|, rent);
    var (h1, w1) := Expand(h, w, |data|, rent).value;
    var path' := if w1 == w then path else path + [|h|];
    FillAdvanceKeepsChain(h1, w1, path', data);
    assert Write(h, w, data, rent) == (Advance(Fill(h1, w1, data), w1, |data|).value, w1);
  }

  // ---------------------------------------------------------------- the shared sentinel

  /** A lone writer made by the constructor has an empty chain. */
  lemma NewIsEmpty()
    ensures Chain(Initial, New(), [EmptyRef]) && Content(Initial, [EmptyRef]) == []
  {
    assert CellOk(Initial, EmptyRef);
    assert [EmptyRef][1..] == [];
  }

  /** Two writers with the same head and the same length copy out the
      same bytes: what is behind the head is all the walk sees. */
  lemma SameHeadSameArray(h: Heap, a: Writer, b: Writer)
    requires HeapOk(h) && Refs(h, a) && Refs(h, b) && a.head == b.head && Length(h, a) == Length(h, b)
    ensures ToArray(h, a) == ToArray(h, b)
  {
    var dest: bytes := seq(Length(h, a), _ => 0);
    assert ToArray(h, a) == CopyTo(h, a, dest) == CopyTo(h, b, dest) == ToArray(h, b);
  }

  /** As written, `Clear` leaves `_Empty` linked to the old first segment,
      so a writer that held anything fails `ToArray` after `Clear`: the
      length is 0 but the walk still finds the old segment. */
  lemma ClearThenToArrayFails(h: Heap, w: Writer, path: seq<int>)
    requires Chain(h, w, path) && w.head == EmptyRef && |path| >= 2 && h[path[1]].index > 0
    ensures Refs(h, w) && ToArray(h, Clear(h, w)) == Err(Argument)
  {
    assert Link(h, path[0], path[1]) && CellOk(h, path[1]) && CellOk(h, path[|path| - 1]);
    var c := Clear(h, w);
    assert CopyChain(h, Some(path[1]), []) == Err(Argument);
    assert ToArray(h, c) == CopyTo(h, c, []);
  }

  /** As written, a writer made by the constructor starts its chain at
      `_Empty` whatever `_Empty` was linked to: its first write links
      `_Empty` to a new segment holding the data, and leaves every other
      segment as it was. */
  lemma FreshWriteRelinks(h: Heap, b: bytes, rent: nat -> seq<byte>)
    requires HeapOk(h) && Rents(rent) && |b| > 0
    ensures var (h', w') := Write(h, New(), b, rent);
      && w' == Writer(EmptyRef, |h|) && Chain(h', w', [EmptyRef, |h|]) && Content(h', [EmptyRef, |h|]) == b
      && forall i :: 0 < i < |h| ==> h'[i] == h[i]
  {
    assert CellOk(h, EmptyRef);
    var (g, wg) := Expand(h, New(), |b|, rent).value;
    var path := [EmptyRef, |h|];
    assert CellOk(g, EmptyRef) && CellOk(g, |h|);
    assert Link(g, EmptyRef, |h|);
    assert Linked(g, path);
    assert Chain(g, wg, path);
    assert path[1..][1..] == [] && path[1..][0] == |h|;
    assert Content(g, path) == S.Span(g[EmptyRef]) + (S.Span(g[|h|]) + Content(g, path[1..][1..]));
    assert Content(g, path) == [];
    FillAdvanceKeepsChain(g, wg, path, b);
    assert Write(h, New(), b, rent) == (Advance(Fill(g, wg, b), wg, |b|).value, wg);
  }

  /** As written, two writers share `_Empty`: the second one's first
      segment replaces the first one's as `_Empty`'s successor, so the
      first one's `ToArray` returns the second one's bytes. */
  lemma SharedSentinel(a: bytes, b: bytes, rent: nat -> seq<byte>)
    requires Rents(rent) && |a| == |b| > 0
    ensures var (h1, wa) := Write(Initial, New(), a, rent);
      var (h2, wb) := Write(h1, New(), b, rent);
      Refs(h2, wa) && ToArray(h2, wa) == Ok(b)
  {
    FreshWriteRelinks(Initial, a, rent);
    var (h1, wa) := Write(Initial, New(), a, rent);
    ToArrayIsContent(h1, wa, [EmptyRef, 1]);
    FreshWriteRelinks(h1, b, rent);
    var (h2, wb) := Write(h1, New(), b, rent);
    ToArrayIsContent(h2, wb, [EmptyRef, 2]);
    assert h2[1] == h1[1];
    SameHeadSameArray(h2, wa, wb);
  }

  // ---------------------------------------------------------------- one sentinel per writer

  /** The constructor with a head segment of the writer's own. */
  function NewFixed(h: Heap): (r: (Heap, Writer))
    requires HeapOk(h)
    ensures |r.0| == |h| + 1 && r.0[..|h|] == h && r.1.head == |h|
    ensures Chain(r.0, r.1, [|h|]) && Content(r.0, [|h|]) == []
  {
    HeapAdd(h, Empty);
    var h' := h + [Empty];
    assert CellOk(h', |h|) && [|h|][1..] == [];
    (h', Writer(|h|, |h|))
  }

  /** Making a writer leaves every existing chain and its content as they
      were. */
  lemma NewFixedKeepsOthers(h: Heap, a: Writer, pa: seq<int>)
    requires Chain(h, a, pa)
    ensures Chain(NewFixed(h).0, a, pa) && Content(NewFixed(h).0, pa) == Content(h, pa)
  {
    var h' := NewFixed(h).0;
    forall i | 0 <= i < |pa|
      ensures CellOk(h', pa[i]) && h'[pa[i]] == h[pa[i]]
    {
      assert CellOk(h, pa[i]);
    }
    assert Linked(h', pa);
    ContentOfSameSpans(h, h', pa);
  }

  /** `Clear` unlinking the writer's own head from the chain behind it. */
  function ClearFixed(h: Heap, w: Writer, path: seq<int>): (r: (Heap, Writer))
    requires Chain(h, w, path)
    ensures |r.0| == |h| && Chain(r.0, r.1, [w.head]) && Content(r.0, [w.head]) == []
    ensures forall i :: 0 <= i < |h| && i != w.head ==> r.0[i] == h[i]
  {
    assert CellOk(h, w.head);
    var t := h[w.head].(next := None);
    HeapUpdate(h, w.head, t);
    var h' := h[w.head := t];
    assert CellOk(h', w.head) && [w.head][1..] == [];
    (h', Writer(w.head, w.head))
  }

  /** With its own head, a cleared writer reads back nothing. */
  lemma ClearFixedEmpties(h: Heap, w: Writer, path: seq<int>)
    requires Chain(h, w, path)
    ensures var (h', w') := ClearFixed(h, w, path);
      Refs(h', w') && ToArray(h', w') == Ok([])
  {
    var (h', w') := ClearFixed(h, w, path);
    ToArrayIsContent(h', w', [w.head]);
  }

  /** A write through one writer leaves every chain that does not pass
      through its tail, and that chain's content, as they were. */
  lemma WriteKeepsOthers(h: Heap, a: Writer, pa: seq<int>, b: Writer, data: bytes, rent: nat -> seq<byte>)
    requires Chain(h, a, pa) && Refs(h, b) && Rents(rent)
    requires forall i :: 0 <= i < |pa| ==> pa[i] != b.tail
    ensures var (h', _) := Write(h, b, data, rent);
      Chain(h', a, pa) && Content(h', pa) == Content(h, pa)
  {
    var (h', _) := Write(h, b, data, rent);
    forall i | 0 <= i < |pa|
      ensures CellOk(h', pa[i]) && h'[pa[i]] == h[pa[i]]
    {
      assert CellOk(h, pa[i]);
    }
    assert Linked(h', pa);
    ContentOfSameSpans(h, h', pa);
  }

  /** A writer with a head of its own, written through, reads back what it
      was given; any other writer's chain stays as it was. */
  lemma FixedWriteReadsBack(h: Heap, a: Writer, pa: seq<int>, data: bytes, rent: nat -> seq<byte>)
    requires Rents(rent) && Chain(h, a, pa)
    ensures var (h1, b) := NewFixed(h);
      var (h2, b') := Write(h1, b, data, rent);
      && Refs(h2, b') && ToArray(h2, b') == Ok(data)
      && Chain(h2, a, pa) && Content(h2, pa) == Content(h, pa)
  {
    var (h1, b) := NewFixed(h);
    NewFixedKeepsOthers(h, a, pa);
    forall i | 0 <= i < |pa|
      ensures pa[i] != b.tail
    {
      assert CellOk(h, pa[i]);
    }
    WriteKeepsOthers(h1, a, pa, b, data, rent);
    WriteKeepsChain(h1, b, [|h|], data, rent);
    var (h2, b') := Write(h1, b, data, rent);
    var pb := if b' == b then [|h|] else [|h|] + [|h1|];
    ToArrayIsContent(h2, b', pb);
  }

  /** Two writers with heads of their own each read back what was written
      through them. */
  lemma FixedWritersIndependent(a: bytes, b: bytes, rent: nat -> seq<byte>)
    requires Rents(rent)
    ensures var (h1, wa) := NewFixed(Initial);
      var (h2, wa') := Write(h1, wa, a, rent);
      var (h3, wb) := NewFixed(h2);
      var (h4, wb') := Write(h3, wb, b, rent);
      Refs(h4, wa') && ToArray(h4, wa') == Ok(a) && Refs(h4, wb') && ToArray(h4, wb') == Ok(b)
  {
    var (h1, wa) := NewFixed(Initial);
    var p1 := [|Initial|];
    WriteKeepsChain(h1, wa, p1, a, rent);
    var (h2, wa') := Write(h1, wa, a, rent);
    var pa := if wa' == wa then p1 else p1 + [|h1|];
    assert Content(h2, pa) == a;
    FixedWriteReadsBack(h2, wa', pa, b, rent);
    var (h3, wb) := NewFixed(h2);
    var (h4, wb') := Write(h3, wb, b, rent);
    ToArrayIsContent(h4, wa', pa);
  }
}

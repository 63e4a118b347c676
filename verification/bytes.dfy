/** The primitive read/write helpers of Gibbed.Memory, as fixed-width
    little- or big-endian byte encodings.

    A reader works on a span and an index; here it takes the bytes from the
    index onwards and returns the decoded value together with the bytes after
    it (`Parsed(value, rest)`), so `rest` is `span.Slice(index)` after the
    read. Reading past the end of the span is an `ArgumentOutOfRange` error.
    A writer appends to a buffer; here it returns the bytes it appends. */
module Bytes {
  import opened Wrappers

  type byte = b: int | 0 <= b < 0x100
  type bytes = seq<byte>
  type u16 = x: int | 0 <= x < 0x1_0000
  type u32 = x: int | 0 <= x < 0x1_0000_0000
  type s16 = x: int | -0x8000 <= x < 0x8000
  type s32 = x: int | -0x8000_0000 <= x < 0x8000_0000

  /** An f32 is kept as its 4-byte bit pattern; no float arithmetic is modelled. */
  type f32 = u32

  datatype Endian = Little | Big

  /** A decoded value and the unread remainder of the span. */
  datatype Parsed<+T> = Parsed(value: T, rest: bytes)

  /** C# `int` arithmetic wraps modulo 2^32 (unchecked context). */
  function WrapS32(x: int): (r: s32)
    ensures -0x8000_0000 <= x < 0x8000_0000 ==> r == x
    ensures (r - x) % 0x1_0000_0000 == 0
  {
    var m := x % 0x1_0000_0000;
    if m >= 0x8000_0000 then m - 0x1_0000_0000 else m
  }

  /** Values congruent modulo 2^32 wrap to the same int. */
  lemma WrapCongruent(a: int, b: int)
    requires (a - b) % 0x1_0000_0000 == 0
    ensures WrapS32(a) == WrapS32(b)
  {
    var q := (a - b) / 0x1_0000_0000;
    assert a == b + 0x1_0000_0000 * q;
    assert a % 0x1_0000_0000 == b % 0x1_0000_0000;
  }

  /** Wrapping an intermediate result of a multiply-add changes nothing once
      the final result is wrapped: C#'s step-by-step unchecked arithmetic is
      arithmetic modulo 2^32. */
  lemma WrapMulAdd(x: int, k: int, b: int)
    ensures WrapS32(WrapS32(x) * k + b) == WrapS32(x * k + b)
  {
    var w := WrapS32(x);
    var q := (w - x) / 0x1_0000_0000;
    assert w - x == 0x1_0000_0000 * q;
    assert (w * k + b) - (x * k + b) == 0x1_0000_0000 * (q * k);
    WrapCongruent(w * k + b, x * k + b);
  }

  // ---------------------------------------------------------------- writers

  function EncodeU16(v: u16, e: Endian): (r: bytes)
    ensures |r| == 2
  {
    if e == Little then [v % 0x100, v / 0x100] else [v / 0x100, v % 0x100]
  }

  function EncodeU32(v: u32, e: Endian): (r: bytes)
    ensures |r| == 4
  {
    if e == Little then EncodeU16(v % 0x1_0000, e) + EncodeU16(v / 0x1_0000, e)
    else EncodeU16(v / 0x1_0000, e) + EncodeU16(v % 0x1_0000, e)
  }

  /** Two's complement: a negative value is written as its u16 pattern. */
  function EncodeS16(v: s16, e: Endian): (r: bytes)
    ensures |r| == 2
  {
    EncodeU16(if v < 0 then v + 0x1_0000 else v, e)
  }

  function EncodeS32(v: s32, e: Endian): (r: bytes)
    ensures |r| == 4
  {
    EncodeU32(if v < 0 then v + 0x1_0000_0000 else v, e)
  }

  // ---------------------------------------------------------------- decoders

  function DecodeU16(b: bytes, e: Endian): u16
    requires |b| == 2
  {
    var b0: int, b1: int := b[0], b[1];
    if e == Little then b0 + 0x100 * b1 else b1 + 0x100 * b0
  }

  function DecodeU32(b: bytes, e: Endian): u32
    requires |b| == 4
  {
    if e == Little then DecodeU16(b[..2], e) + 0x1_0000 * DecodeU16(b[2..], e)
    else DecodeU16(b[2..], e) + 0x1_0000 * DecodeU16(b[..2], e)
  }

  function DecodeS16(b: bytes, e: Endian): s16
    requires |b| == 2
  {
    var u := DecodeU16(b, e);
    if u >= 0x8000 then u - 0x1_0000 else u
  }

  function DecodeS32(b: bytes, e: Endian): s32
    requires |b| == 4
  {
    var u := DecodeU32(b, e);
    if u >= 0x8000_0000 then u - 0x1_0000_0000 else u
  }

  // ---------------------------------------------------------------- readers

  function ReadU8(s: bytes): (r: Result<Parsed<byte>>)
    ensures r.Ok? <==> |s| >= 1
    ensures r.Ok? ==> r.value.value == s[0] && r.value.rest == s[1..]
  {
    if |s| < 1 then Err(ArgumentOutOfRange) else Ok(Parsed(s[0], s[1..]))
  }

  function ReadU16(s: bytes, e: Endian): (r: Result<Parsed<u16>>)
    ensures r.Ok? <==> |s| >= 2
    ensures r.Ok? ==> r.value.rest == s[2..]
  {
    if |s| < 2 then Err(ArgumentOutOfRange) else Ok(Parsed(DecodeU16(s[..2], e), s[2..]))
  }

  function ReadS16(s: bytes, e: Endian): (r: Result<Parsed<s16>>)
    ensures r.Ok? <==> |s| >= 2
    ensures r.Ok? ==> r.value.rest == s[2..]
  {
    if |s| < 2 then Err(ArgumentOutOfRange) else Ok(Parsed(DecodeS16(s[..2], e), s[2..]))
  }

  function ReadU32(s: bytes, e: Endian): (r: Result<Parsed<u32>>)
    ensures r.Ok? <==> |s| >= 4
    ensures r.Ok? ==> r.value.rest == s[4..]
  {
    if |s| < 4 then Err(ArgumentOutOfRange) else Ok(Parsed(DecodeU32(s[..4], e), s[4..]))
  }

  function ReadS32(s: bytes, e: Endian): (r: Result<Parsed<s32>>)
    ensures r.Ok? <==> |s| >= 4
    ensures r.Ok? ==> r.value.rest == s[4..]
  {
    if |s| < 4 then Err(ArgumentOutOfRange) else Ok(Parsed(DecodeS32(s[..4], e), s[4..]))
  }

  /** `ReadValueF32`: the 4-byte pattern, in the given byte order. */
  function ReadF32(s: bytes, e: Endian): (r: Result<Parsed<f32>>)
    ensures r.Ok? <==> |s| >= 4
    ensures r.Ok? ==> r.value.rest == s[4..]
  {
    ReadU32(s, e)
  }

  function EncodeF32(v: f32, e: Endian): (r: bytes)
    ensures |r| == 4
  {
    EncodeU32(v, e)
  }

  /** `span.Slice(index, n).ToArray()` followed by `index += n`. */
  function ReadBytes(s: bytes, n: nat): (r: Result<Parsed<bytes>>)
    ensures r.Ok? <==> n <= |s|
    ensures r.Ok? ==> r.value.value == s[..n] && r.value.rest == s[n..]
  {
    if n > |s| then Err(ArgumentOutOfRange) else Ok(Parsed(s[..n], s[n..]))
  }

  /** `WriteBytes(array, 0, n)`: the first n bytes of the array; an array
      shorter than n is an `Argument` error. */
  function WritePrefix(a: bytes, n: nat): (r: Result<bytes>)
    ensures r.Ok? <==> n <= |a|
    ensures r.Ok? ==> r.value == a[..n]
  {
    if |a| < n then Err(Argument) else Ok(a[..n])
  }

  // ---------------------------------------------------------------- round trips

  lemma U16RoundTrip(v: u16, e: Endian, rest: bytes)
    ensures ReadU16(EncodeU16(v, e) + rest, e) == Ok(Parsed(v, rest))
  {
    var s := EncodeU16(v, e) + rest;
    assert s[..2] == EncodeU16(v, e);
    assert s[2..] == rest;
  }

  lemma U16Bytes(b: bytes, e: Endian)
    requires |b| == 2
    ensures EncodeU16(DecodeU16(b, e), e) == b
  {
  }

  lemma DecodeEncodeU32(v: u32, e: Endian)
    ensures DecodeU32(EncodeU32(v, e), e) == v
  {
    var lo, hi := EncodeU16(v % 0x1_0000, e), EncodeU16(v / 0x1_0000, e);
    if e == Little {
      assert EncodeU32(v, e)[..2] == lo && EncodeU32(v, e)[2..] == hi;
    } else {
      assert EncodeU32(v, e)[..2] == hi && EncodeU32(v, e)[2..] == lo;
    }
  }

  lemma EncodeDecodeU32(b: bytes, e: Endian)
    requires |b| == 4
    ensures EncodeU32(DecodeU32(b, e), e) == b
  {
    var lo, hi := DecodeU16(b[..2], e), DecodeU16(b[2..], e);
    U16Bytes(b[..2], e);
    U16Bytes(b[2..], e);
    var v := DecodeU32(b, e);
    if e == Little {
      assert v % 0x1_0000 == lo && v / 0x1_0000 == hi;
    } else {
      assert v % 0x1_0000 == hi && v / 0x1_0000 == lo;
    }
    assert b == b[..2] + b[2..];
  }

  lemma U32RoundTrip(v: u32, e: Endian, rest: bytes)
    ensures ReadU32(EncodeU32(v, e) + rest, e) == Ok(Parsed(v, rest))
  {
    var s := EncodeU32(v, e) + rest;
    assert s[..4] == EncodeU32(v, e);
    assert s[4..] == rest;
    DecodeEncodeU32(v, e);
  }

  lemma F32RoundTrip(v: f32, e: Endian, rest: bytes)
    ensures ReadF32(EncodeF32(v, e) + rest, e) == Ok(Parsed(v, rest))
  {
    U32RoundTrip(v, e, rest);
  }

  lemma S16RoundTrip(v: s16, e: Endian, rest: bytes)
    ensures ReadS16(EncodeS16(v, e) + rest, e) == Ok(Parsed(v, rest))
  {
    var s := EncodeS16(v, e) + rest;
    assert s[..2] == EncodeS16(v, e);
    assert s[2..] == rest;
  }

  lemma S32RoundTrip(v: s32, e: Endian, rest: bytes)
    ensures ReadS32(EncodeS32(v, e) + rest, e) == Ok(Parsed(v, rest))
  {
    var s := EncodeS32(v, e) + rest;
    assert s[..4] == EncodeS32(v, e);
    assert s[4..] == rest;
    DecodeEncodeU32(if v < 0 then v + 0x1_0000_0000 else v, e);
  }

  lemma DecodeEncodeU16(v: u16, e: Endian)
    ensures DecodeU16(EncodeU16(v, e), e) == v
  {
  }

  lemma DecodeEncodeS32(v: s32, e: Endian)
    ensures DecodeS32(EncodeS32(v, e), e) == v
  {
    DecodeEncodeU32(if v < 0 then v + 0x1_0000_0000 else v, e);
  }

  lemma S32Bytes(b: bytes, e: Endian)
    requires |b| == 4
    ensures EncodeS32(DecodeS32(b, e), e) == b
  {
    EncodeDecodeU32(b, e);
  }

  lemma U8RoundTrip(v: byte, rest: bytes)
    ensures ReadU8([v] + rest) == Ok(Parsed(v, rest))
  {
    assert ([v] + rest)[1..] == rest;
  }

  lemma BytesRoundTrip(a: bytes, rest: bytes)
    ensures ReadBytes(a + rest, |a|) == Ok(Parsed(a, rest))
  {
    assert (a + rest)[..|a|] == a;
    assert (a + rest)[|a|..] == rest;
  }

  // ---------------------------------------------------------------- counted lists

  /** The `for (i = 0; i < count; i++) list.Add(Read(span, ref index))` loop:
      exactly n items, read one after another. */
  function ReadMany<T>(s: bytes, n: nat, read: bytes -> Result<Parsed<T>>): (r: Result<Parsed<seq<T>>>)
    ensures r.Ok? ==> |r.value.value| == n
    decreases n
  {
    if n == 0 then Ok(Parsed([], s))
    else
      var p :- read(s);
      var q :- ReadMany(p.rest, n - 1, read);
      Ok(Parsed([p.value] + q.value, q.rest))
  }

  /** The `foreach (var item in list) item.Write(writer)` loop, stopping at
      the first item whose write throws. */
  function WriteMany<T>(xs: seq<T>, write: T -> Result<bytes>): (r: Result<bytes>)
    ensures r.Ok? <==> forall i :: 0 <= i < |xs| ==> write(xs[i]).Ok?
    ensures r.Err? ==> exists i :: 0 <= i < |xs| && write(xs[i]) == Err(r.error)
  {
    if |xs| == 0 then Ok([])
    else
      var a :- write(xs[0]);
      var b :- WriteMany(xs[1..], write);
      Ok(a + b)
  }

  /** `read` undoes `write` on x, whatever follows it. */
  ghost predicate Inverse<T>(read: bytes -> Result<Parsed<T>>, write: T -> Result<bytes>, x: T) {
    && write(x).Ok?
    && forall rest: bytes {:trigger write(x).value + rest} ::
         read(write(x).value + rest) == Ok(Parsed(x, rest))
  }

  lemma {:induction false} ManyRoundTrip<T>(xs: seq<T>, rest: bytes,
                                            read: bytes -> Result<Parsed<T>>, write: T -> Result<bytes>)
    requires forall i :: 0 <= i < |xs| ==> Inverse(read, write, xs[i])
    ensures WriteMany(xs, write).Ok?
    ensures ReadMany(WriteMany(xs, write).value + rest, |xs|, read) == Ok(Parsed(xs, rest))
  {
    if |xs| > 0 {
      assert Inverse(read, write, xs[0]);
      var a := write(xs[0]).value;
      ManyRoundTrip(xs[1..], rest, read, write);
      var b := WriteMany(xs[1..], write).value;
      assert WriteMany(xs, write).value == a + b;
      assert (a + b) + rest == a + (b + rest);
      assert read(a + (b + rest)) == Ok(Parsed(xs[0], b + rest));
      assert ReadMany(b + rest, |xs| - 1, read) == Ok(Parsed(xs[1..], rest));
      assert [xs[0]] + xs[1..] == xs;
    } else {
      assert WriteMany(xs, write).value + rest == rest;
    }
  }

  /** Items of a fixed encoded width w occupy exactly n * w bytes. */
  lemma {:induction false} WriteManyLength<T>(xs: seq<T>, write: T -> Result<bytes>, w: nat)
    requires forall i :: 0 <= i < |xs| ==> write(xs[i]).Ok? && |write(xs[i]).value| == w
    ensures WriteMany(xs, write).Ok? && |WriteMany(xs, write).value| == |xs| * w
  {
    if |xs| > 0 {
      WriteManyLength(xs[1..], write, w);
    }
  }

  /** `read` consumes exactly w bytes and fails exactly on shorter input. */
  ghost predicate FixedWidth<T>(read: bytes -> Result<Parsed<T>>, w: nat) {
    forall s: bytes :: (read(s).Ok? <==> |s| >= w) && (read(s).Ok? ==> read(s).value.rest == s[w..])
  }

  /** n * w as repeated addition, so that the list proofs stay linear. */
  function Times(n: nat, w: nat): nat {
    if n == 0 then 0 else w + Times(n - 1, w)
  }

  lemma {:induction false} TimesIsMul(n: nat, w: nat)
    ensures Times(n, w) == n * w
  {
    if n > 0 {
      TimesIsMul(n - 1, w);
    }
  }

  /** One step of `ReadMany`: after a successful first read, the rest of the
      list is read from what the first read left. */
  lemma ReadManyStep<T>(s: bytes, n: nat, read: bytes -> Result<Parsed<T>>)
    requires n > 0
    ensures read(s).Err? ==> ReadMany(s, n, read).Err?
    ensures read(s).Ok? ==>
      (ReadMany(s, n, read).Ok? <==> ReadMany(read(s).value.rest, n - 1, read).Ok?)
    ensures read(s).Ok? && ReadMany(s, n, read).Ok? ==>
      ReadMany(s, n, read).value.rest == ReadMany(read(s).value.rest, n - 1, read).value.rest
  {
  }

  lemma {:induction false} ReadManyTimes<T>(s: bytes, n: nat, read: bytes -> Result<Parsed<T>>, w: nat)
    requires FixedWidth(read, w)
    ensures ReadMany(s, n, read).Ok? <==> |s| >= Times(n, w)
    ensures ReadMany(s, n, read).Ok? ==> ReadMany(s, n, read).value.rest == s[Times(n, w)..]
  {
    if n > 0 {
      ReadManyStep(s, n, read);
      var k := Times(n - 1, w);
      assert Times(n, w) == w + k;
      if |s| >= w {
        var t := s[w..];
        assert read(s).Ok? && read(s).value.rest == t;
        ReadManyTimes(t, n - 1, read, w);
        if |t| >= k {
          DropDrop(s, w, k);
        }
      } else {
        assert read(s).Err?;
      }
    }
  }

  /** n items of fixed width w are read from exactly the first n * w bytes. */
  lemma ReadManyFixed<T>(s: bytes, n: nat, read: bytes -> Result<Parsed<T>>, w: nat)
    requires FixedWidth(read, w)
    ensures ReadMany(s, n, read).Ok? <==> |s| >= n * w
    ensures ReadMany(s, n, read).Ok? ==> ReadMany(s, n, read).value.rest == s[n * w..]
  {
    ReadManyTimes(s, n, read, w);
    TimesIsMul(n, w);
  }

  /** A loop of n `ReadValueU8` calls reads the same as one n-byte slice. */
  lemma {:induction false} ReadManyU8IsReadBytes(s: bytes, n: nat)
    ensures ReadMany(s, n, ReadU8) == ReadBytes(s, n)
  {
    if n > 0 && |s| > 0 {
      ReadManyU8IsReadBytes(s[1..], n - 1);
      if n <= |s| {
        assert [s[0]] + s[1..][..n - 1] == s[..n];
        assert s[1..][n - 1..] == s[n..];
      }
    }
  }

  /** A loop of `WriteValueU8` calls writes the list itself. */
  lemma {:induction false} WriteManyU8IsIdentity(xs: bytes)
    ensures WriteMany(xs, (b: byte) => Ok([b])) == Ok(xs)
  {
    if |xs| > 0 {
      WriteManyU8IsIdentity(xs[1..]);
      assert [xs[0]] + xs[1..] == xs;
    }
  }

  /** A suffix of a suffix is a suffix of the whole. */
  lemma DropDrop<T>(s: seq<T>, a: nat, b: nat)
    requires a + b <= |s|
    ensures s[a..][b..] == s[a + b..]
  {
  }

  /** A slice of a suffix is a slice of the whole. */
  lemma SliceOfSuffix<T>(s: seq<T>, a: nat, i: nat, j: nat)
    requires i <= j && a + j <= |s|
    ensures s[a..][i..j] == s[a + i..a + j]
  {
  }

  /** A slice of a slice is a slice of the whole. */
  lemma SliceOfSlice<T>(s: seq<T>, a: nat, b: nat, i: nat, j: nat)
    requires a <= b <= |s| && i <= j <= b - a
    ensures s[a..b][i..j] == s[a + i..a + j]
  {
    var t := s[a..b][i..j];
    assert |t| == |s[a + i..a + j]|;
    assert forall k :: 0 <= k < |t| ==> t[k] == s[a + i + k];
  }

  /** A sequence is the concatenation of its three slices around two cut points. */
  lemma Split3<T>(s: seq<T>, i: nat, j: nat)
    requires i <= j <= |s|
    ensures s == s[..i] + s[i..j] + s[j..]
  {
    assert s[..j] == s[..i] + s[i..j];
    assert s == s[..j] + s[j..];
  }

  /** The four fields of a 2 + 2 + 4 byte header and what follows it. */
  lemma Slices224<T>(a: seq<T>, b: seq<T>, c: seq<T>, d: seq<T>)
    requires |a| == 2 && |b| == 2 && |c| == 4
    ensures var s := a + b + c + d;
            s[..2] == a && s[2..4] == b && s[4..8] == c && s[8..] == d
  {
  }

  lemma HeadTail<T>(s: seq<T>)
    requires |s| > 0
    ensures [s[0]] + s[1..] == s
  {
  }

  /** The parts of four 4-byte words and what follows them. */
  lemma Slices4x4<T>(a: seq<T>, b: seq<T>, c: seq<T>, d: seq<T>, r: seq<T>)
    requires |a| == 4 && |b| == 4 && |c| == 4 && |d| == 4
    ensures var s := a + b + c + d + r;
            s[..4] == a && s[4..8] == b && s[8..12] == c && s[12..16] == d && s[16..] == r
  {
  }

  lemma Join4x4<T>(s: seq<T>)
    requires |s| >= 16
    ensures s == s[..4] + s[4..8] + s[8..12] + s[12..16] + s[16..]
  {
    Slices4x4(s[..4], s[4..8], s[8..12], s[12..16], s[16..]);
  }

  /** The fields of an 8 + 4 + 4 byte header and what follows it. */
  lemma Slices844<T>(a: seq<T>, b: seq<T>, c: seq<T>, d: seq<T>)
    requires |a| == 8 && |b| == 4 && |c| == 4
    ensures var s := a + b + c + d;
            s[..8] == a && s[8..12] == b && s[12..16] == c && s[16..] == d
  {
  }

  lemma Join844<T>(s: seq<T>)
    requires |s| >= 16
    ensures s == s[..8] + s[8..12] + s[12..16] + s[16..]
  {
    Slices844(s[..8], s[8..12], s[12..16], s[16..]);
  }

  /** The three parts of a concatenation, recovered by slicing. */
  lemma Cut3<T>(a: seq<T>, b: seq<T>, c: seq<T>)
    ensures var s := a + b + c;
            s[..|a|] == a && s[|a|..|a| + |b|] == b && s[|a| + |b|..] == c
  {
  }

  lemma Regroup5<T>(a: seq<T>, b: seq<T>, c: seq<T>, d: seq<T>, f: seq<T>, r: seq<T>)
    ensures a + b + c + d + f + r == a + (b + (c + (d + (f + r))))
  {
  }

  lemma Regroup<T>(a: seq<T>, b: seq<T>, c: seq<T>, d: seq<T>, r: seq<T>)
    ensures a + b + c + d + r == a + (b + (c + (d + r)))
  {
  }

  lemma Assoc<T>(a: seq<T>, b: seq<T>, r: seq<T>)
    ensures (a + b) + r == a + (b + r)
  {
  }

  lemma Regroup3<T>(a: seq<T>, b: seq<T>, c: seq<T>, r: seq<T>)
    ensures a + b + c + r == a + (b + (c + r))
  {
  }

  // ---------------------------------------------------------------- lists whose items cannot fail to write

  /** The `foreach` write loop for items whose writer never throws. */
  function WriteEach<T>(xs: seq<T>, write: T -> bytes): (r: bytes)
    ensures |xs| == 0 ==> r == []
  {
    if |xs| == 0 then [] else write(xs[0]) + WriteEach(xs[1..], write)
  }

  /** `read` undoes the total writer `write` on x, whatever follows it. */
  ghost predicate InverseOf<T>(read: bytes -> Result<Parsed<T>>, write: T -> bytes, x: T) {
    forall rest: bytes {:trigger write(x) + rest} :: read(write(x) + rest) == Ok(Parsed(x, rest))
  }

  lemma {:induction false} EachRoundTrip<T>(xs: seq<T>, rest: bytes,
                                            read: bytes -> Result<Parsed<T>>, write: T -> bytes)
    requires forall i :: 0 <= i < |xs| ==> InverseOf(read, write, xs[i])
    ensures ReadMany(WriteEach(xs, write) + rest, |xs|, read) == Ok(Parsed(xs, rest))
  {
    if |xs| > 0 {
      assert InverseOf(read, write, xs[0]);
      var a := write(xs[0]);
      EachRoundTrip(xs[1..], rest, read, write);
      var b := WriteEach(xs[1..], write);
      assert (a + b) + rest == a + (b + rest);
      assert read(a + (b + rest)) == Ok(Parsed(xs[0], b + rest));
      assert [xs[0]] + xs[1..] == xs;
    } else {
      assert WriteEach(xs, write) + rest == rest;
    }
  }

  lemma {:induction false} WriteEachLength<T>(xs: seq<T>, write: T -> bytes, w: nat)
    requires forall i :: 0 <= i < |xs| ==> |write(xs[i])| == w
    ensures |WriteEach(xs, write)| == |xs| * w
  {
    if |xs| > 0 {
      WriteEachLength(xs[1..], write, w);
    }
  }

  /** The u16 reader and writer as values, for counted lists of u16. */
  function U16Reader(e: Endian): bytes -> Result<Parsed<u16>> {
    (s: bytes) => ReadU16(s, e)
  }

  function U16Writer(e: Endian): u16 -> bytes {
    (v: u16) => EncodeU16(v, e)
  }

  function S16Reader(e: Endian): bytes -> Result<Parsed<s16>> {
    (s: bytes) => ReadS16(s, e)
  }

  function S16Writer(e: Endian): s16 -> bytes {
    (v: s16) => EncodeS16(v, e)
  }

  /** `Slice(index, n).ToArray()` and its writer, as values. */
  function RawReader(n: nat): bytes -> Result<Parsed<bytes>> {
    (s: bytes) => ReadBytes(s, n)
  }

  function RawWriter(): bytes -> bytes {
    (b: bytes) => b
  }

  lemma U16ListRoundTrip(xs: seq<u16>, e: Endian, rest: bytes)
    ensures |WriteEach(xs, U16Writer(e))| == 2 * |xs|
    ensures ReadMany(WriteEach(xs, U16Writer(e)) + rest, |xs|, U16Reader(e)) == Ok(Parsed(xs, rest))
  {
    forall i | 0 <= i < |xs|
      ensures InverseOf(U16Reader(e), U16Writer(e), xs[i])
    {
      forall rest': bytes
        ensures U16Reader(e)(U16Writer(e)(xs[i]) + rest') == Ok(Parsed(xs[i], rest'))
      {
        U16RoundTrip(xs[i], e, rest');
      }
    }
    EachRoundTrip(xs, rest, U16Reader(e), U16Writer(e));
    WriteEachLength(xs, U16Writer(e), 2);
  }

  lemma S16ListRoundTrip(xs: seq<s16>, e: Endian, rest: bytes)
    ensures |WriteEach(xs, S16Writer(e))| == 2 * |xs|
    ensures ReadMany(WriteEach(xs, S16Writer(e)) + rest, |xs|, S16Reader(e)) == Ok(Parsed(xs, rest))
  {
    forall i | 0 <= i < |xs|
      ensures InverseOf(S16Reader(e), S16Writer(e), xs[i])
    {
      forall rest': bytes
        ensures S16Reader(e)(S16Writer(e)(xs[i]) + rest') == Ok(Parsed(xs[i], rest'))
      {
        S16RoundTrip(xs[i], e, rest');
      }
    }
    EachRoundTrip(xs, rest, S16Reader(e), S16Writer(e));
    WriteEachLength(xs, S16Writer(e), 2);
  }

  /** Raw items of exactly n bytes each. */
  lemma RawListRoundTrip(xs: seq<bytes>, n: nat, rest: bytes)
    requires forall i :: 0 <= i < |xs| ==> |xs[i]| == n
    ensures |WriteEach(xs, RawWriter())| == n * |xs|
    ensures ReadMany(WriteEach(xs, RawWriter()) + rest, |xs|, RawReader(n)) == Ok(Parsed(xs, rest))
  {
    forall i | 0 <= i < |xs|
      ensures InverseOf(RawReader(n), RawWriter(), xs[i])
    {
      forall rest': bytes
        ensures RawReader(n)(RawWriter()(xs[i]) + rest') == Ok(Parsed(xs[i], rest'))
      {
        BytesRoundTrip(xs[i], rest');
      }
    }
    EachRoundTrip(xs, rest, RawReader(n), RawWriter());
    WriteEachLength(xs, RawWriter(), n);
  }
}

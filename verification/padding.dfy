/** PaddingHelpers: zero padding on the writer side, validated zero padding
    on the reader side. */
module Padding {
  import opened Wrappers
  import opened Bytes

  predicate AllZero(s: bytes) {
    forall i :: 0 <= i < |s| ==> s[i] == 0
  }

  /** The reader's `foreach (var b in span) if (b != 0) throw` scan over the
      first n bytes. */
  function ScanZero(s: bytes, n: nat): (r: bool)
    requires n <= |s|
    ensures r <==> AllZero(s[..n])
  {
    if n == 0 then true
    else
      assert s[..n] == s[..n-1] + [s[n-1]];
      s[n-1] == 0 && ScanZero(s, n - 1)
  }

  /** Writer `SkipPadding(size)`: the zero bytes appended. */
  function SkipWrite(size: nat): (r: bytes)
    ensures |r| == size
    ensures AllZero(r)
  {
    seq(size, _ => 0)
  }

  /** Reader `SkipPadding(ref index, size)`: the span after the padding, a
      slice past the end of the span, or a non-zero padding byte. */
  function SkipRead(s: bytes, size: nat): (r: Result<bytes>)
    ensures r.Ok? <==> size <= |s| && AllZero(s[..size])
    ensures r.Ok? ==> r.value == s[size..]
    ensures size > |s| ==> r == Err(ArgumentOutOfRange)
    ensures size <= |s| && !AllZero(s[..size]) ==> r == Err(Format)
  {
    if size > |s| then Err(ArgumentOutOfRange)
    else if !ScanZero(s, size) then Err(Format)
    else Ok(s[size..])
  }

  /** Reading back what the writer produced always succeeds and consumes it. */
  lemma SkipRoundTrip(size: nat, rest: bytes)
    ensures SkipRead(SkipWrite(size) + rest, size) == Ok(rest)
  {
    var s := SkipWrite(size) + rest;
    assert s[..size] == SkipWrite(size);
    assert s[size..] == rest;
  }

  /** A single non-zero byte anywhere inside the padding is rejected. */
  lemma NonZeroRejected(s: bytes, size: nat, k: nat)
    requires size <= |s| && k < size && s[k] != 0
    ensures SkipRead(s, size) == Err(Format)
  {
    assert s[..size][k] == s[k];
  }

  /** Size 0 is a no-op on both sides. */
  lemma SkipZeroIsNoOp(s: bytes)
    ensures SkipWrite(0) == [] && SkipRead(s, 0) == Ok(s)
  {
  }
}

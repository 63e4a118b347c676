/** ResourceKey: the (unknown, type, id) tuple that identifies a resource. */
module ResourceKeys {
  import opened Wrappers
  import opened Bytes

  /** `rtype` is the `ResourceType` byte; any byte value can be cast to it. */
  datatype ResourceKey = ResourceKey(unknown: u16, rtype: byte, id: byte)

  /** Unknown u16 in the given byte order, then the type byte, then the id byte. */
  function Read(s: bytes, e: Endian): (r: Result<Parsed<ResourceKey>>)
    ensures r.Ok? <==> |s| >= 4
    ensures r.Ok? ==> r.value.rest == s[4..]
    ensures r.Ok? ==> r.value.value.rtype == s[2] && r.value.value.id == s[3]
  {
    var unknown :- ReadU16(s, e);
    var rtype :- ReadU8(unknown.rest);
    var id :- ReadU8(rtype.rest);
    Ok(Parsed(ResourceKey(unknown.value, rtype.value, id.value), id.rest))
  }

  function Write(k: ResourceKey, e: Endian): (r: bytes)
    ensures |r| == 4
    ensures r[..2] == EncodeU16(k.unknown, e) && r[2] == k.rtype && r[3] == k.id
  {
    EncodeU16(k.unknown, e) + [k.rtype] + [k.id]
  }

  /** Read after Write gives the key back and consumes exactly its 4 bytes. */
  lemma ReadWrite(k: ResourceKey, e: Endian, rest: bytes)
    ensures Read(Write(k, e) + rest, e) == Ok(Parsed(k, rest))
  {
    var s := Write(k, e) + rest;
    assert s == EncodeU16(k.unknown, e) + ([k.rtype] + ([k.id] + rest));
    U16RoundTrip(k.unknown, e, [k.rtype] + ([k.id] + rest));
  }

  /** Write after Read reproduces any 4 bytes. */
  lemma WriteRead(s: bytes, e: Endian)
    requires |s| >= 4
    ensures Read(s, e).Ok? && Write(Read(s, e).value.value, e) == s[..4]
  {
    U16Bytes(s[..2], e);
    assert s[..4] == s[..2] + [s[2]] + [s[3]];
  }

  /** `Equals(ResourceKey other)`, and the operators defined through it. */
  predicate Equals(a: ResourceKey, b: ResourceKey) {
    a.unknown == b.unknown && a.rtype == b.rtype && a.id == b.id
  }

  predicate OpEqual(a: ResourceKey, b: ResourceKey) {
    Equals(a, b) == true
  }

  predicate OpNotEqual(a: ResourceKey, b: ResourceKey) {
    Equals(a, b) == false
  }

  /** `GetHashCode` with wrapping 32-bit arithmetic; ushort, enum and byte hash
      to their numeric value. */
  function HashCode(k: ResourceKey): s32 {
    var h0 := WrapS32(-752309282 * -1521134295 + k.unknown);
    var h1 := WrapS32(h0 * -1521134295 + k.rtype);
    WrapS32(h1 * -1521134295 + k.id)
  }

  lemma EqualsIsStructural(a: ResourceKey, b: ResourceKey)
    ensures Equals(a, b) <==> a == b
    ensures OpEqual(a, b) <==> Equals(a, b)
    ensures OpNotEqual(a, b) <==> !OpEqual(a, b)
  {
  }

  /** The hash is the plain polynomial in the fields, reduced once to a C#
      int: the wrap after each step is ordinary arithmetic modulo 2^32. */
  lemma HashIsPolynomial(k: ResourceKey)
    ensures HashCode(k) == WrapS32(((-752309282 * -1521134295 + k.unknown) * -1521134295 + k.rtype) * -1521134295 + k.id)
  {
    var p0 := -752309282 * -1521134295 + k.unknown;
    var p1 := p0 * -1521134295 + k.rtype;
    WrapMulAdd(p0, -1521134295, k.rtype);
    WrapMulAdd(p1, -1521134295, k.id);
  }

  /** A hash value worked out independently with 32-bit arithmetic; every
      step of it wraps. */
  lemma HashExamples()
    ensures HashCode(ResourceKey(0x1234, 5, 7)) == 1997391286
  {
    HashExample(0x1234, 5, 7, 2034912962, 1232537367, 1997391286);
  }

  /** One hash worked through its three wrapped steps. */
  lemma HashExample(u: u16, t: byte, i: byte, h0: int, h1: int, h: int)
    requires WrapS32(-752309282 * -1521134295 + u) == h0
    requires WrapS32(h0 * -1521134295 + t) == h1
    requires WrapS32(h1 * -1521134295 + i) == h
    ensures HashCode(ResourceKey(u, t, i)) == h
  {
  }

  lemma EqualKeysHashEqual(a: ResourceKey, b: ResourceKey)
    requires Equals(a, b)
    ensures HashCode(a) == HashCode(b)
  {
  }
}

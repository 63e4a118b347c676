/** Resources/UnhandledResource: a resource kept as the raw bytes of its
    payload, with the discriminant it was created for. */
module UnhandledResources {
  import opened Wrappers
  import opened Bytes

  /** `Data` is a nullable array; a null array converts to an empty span when
      written. */
  datatype UnhandledResource = UnhandledResource(rtype: byte, data: Option<bytes>)

  /** The constructor: the discriminant is stored, `Data` starts out null. */
  function Create(rtype: byte): (r: UnhandledResource)
    ensures r.rtype == rtype && r.data.None?
  {
    UnhandledResource(rtype, None)
  }

  /** `Serialize`: exactly the bytes of `Data`, nothing for a null array. */
  function Serialize(x: UnhandledResource): (r: bytes)
    ensures x.data.Some? ==> r == x.data.value
    ensures x.data.None? ==> r == []
  {
    if x.data.Some? then x.data.value else []
  }

  /** `Deserialize`: every byte from the index to the end of the span becomes
      `Data`; nothing is left unread and the discriminant is kept. */
  function Deserialize(x: UnhandledResource, s: bytes): (r: Parsed<UnhandledResource>)
    ensures r.value.rtype == x.rtype && r.value.data == Some(s) && r.rest == []
  {
    Parsed(x.(data := Some(s)), [])
  }

  /** Reading then writing gives back any span unchanged. */
  lemma WriteOfRead(x: UnhandledResource, s: bytes)
    ensures Serialize(Deserialize(x, s).value) == s
  {
  }

  /** Writing then reading restores the data, a null array coming back empty. */
  lemma ReadOfWrite(x: UnhandledResource, y: UnhandledResource)
    requires y.rtype == x.rtype
    ensures Deserialize(y, Serialize(x)).value
         == x.(data := Some(if x.data.Some? then x.data.value else []))
  {
  }
}

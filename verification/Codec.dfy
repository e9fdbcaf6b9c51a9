/** The `data` column codec (`pack` / `unpack`): Marshal followed by a base64
    transform. Both serialisers belong to Ruby's runtime, so the payload is kept
    abstract: a payload either holds the object that was dumped into it, or is
    bytes Marshal cannot load. */
module Codec {
  import opened Values

  datatype Payload =
    | Dumped(obj: Value)  // what `[Marshal.dump(obj)].pack("m*")` produces
    | Garbled             // bytes that `Marshal.load` rejects

  /** `pack(session)`: serialise a session hash for the `data` column. */
  function Pack(session: Attrs): (p: Payload)
    ensures Unpack(Some(p)) == Ok(Hash(session))
  {
    Dumped(Hash(session))
  }

  /** `unpack(packed)`: a NULL column reads as nil; otherwise the loaded object,
      or the exception Marshal raises on bytes it cannot load. */
  function Unpack(data: Option<Payload>): (r: Result<Value>)
    ensures data.None? ==> r == Ok(Nil)
    ensures data == Some(Garbled) ==> r == Err(Unmarshalable)
    ensures data.Some? && data.value.Dumped? ==> r == Ok(data.value.obj)
  {
    match data
    case None => Ok(Nil)
    case Some(Dumped(obj)) => Ok(obj)
    case Some(Garbled) => Err(Unmarshalable)
  }
}

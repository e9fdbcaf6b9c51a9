/** Session attribute values, as far as the session store compares, copies and
    stores them, and the error outcomes its operations can end in. */
module Values {

  /** The kinds of Ruby object the model lets a session hold: those whose `==`
      is structural equality. `Nil` is Ruby's nil, which is also what a Hash
      answers for a key it does not hold. */
  datatype Value =
    | Nil
    | Bool(b: bool)
    | Int(i: int)
    | Str(s: string)
    | Sym(name: string)
    | List(items: seq<Value>)
    | Hash(entries: map<string, Value>)

  /** Session attribute keys. */
  type Key = string

  /** Session attributes: the hash a request handler sees as its session. */
  type Attrs = map<Key, Value>

  /** A session identifier: the opaque token stored in the `session_id` column. */
  type Sid = string

  /** Ruby truthiness: only nil and false are falsy. */
  predicate Truthy(v: Value) {
    !(v.Nil? || v == Bool(false))
  }

  /** `h[k]` on a Ruby Hash without a default: nil for a key it does not hold. */
  function Lookup(h: Attrs, k: Key): Value {
    if k in h then h[k] else Nil
  }

  datatype Option<+T> = None | Some(value: T) {
    function GetOr(default: T): T {
      match this
      case Some(v) => v
      case None => default
    }
  }

  /** The exceptions the store lets escape to its caller. */
  datatype Error =
    | Unmarshalable  // Marshal.load rejects the stored bytes
    | NotAHash       // a stored object is neither falsy nor a Hash

  datatype Result<+T> = Ok(value: T) | Err(error: Error)
}

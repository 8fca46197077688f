// Value types shared by the message buffer, the chat room and the client.
module Bytes {
  /** One octet of a buffer or of the byte stream. */
  type byte = b: int | 0 <= b < 256

  /** Python's `None` or a value. */
  datatype Option<T> = None | Some(value: T)

  /** Concatenation is associative. */
  lemma AppendAssoc<T>(a: seq<T>, b: seq<T>, c: seq<T>)
    ensures (a + b) + c == a + (b + c)
  {
  }
}

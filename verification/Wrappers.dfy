/** Result types shared by every component. */
module Wrappers {
  datatype Option<+T> = None | Some(value: T)

  datatype Result<+T, +E> = Ok(value: T) | Err(error: E)

  /** One octet. A subset of `int`, so wire arithmetic stays in the integers. */
  type Byte = b: int | 0 <= b < 256

  /** Concatenation is associative; called by name where the grouping matters. */
  lemma Assoc<T>(a: seq<T>, b: seq<T>, c: seq<T>)
    ensures (a + b) + c == a + (b + c)
  {
  }

  lemma NoSuffix<T>(a: seq<T>)
    ensures a + [] == a && [] + a == a
  {
  }

  /** Taking a sequence apart again at a known place. */
  lemma Cut<T>(a: seq<T>, b: seq<T>)
    ensures (a + b)[..|a|] == a && (a + b)[|a|..] == b
  {
  }
}

/** Small shared helpers. */
module Util {
  /** A value that may be missing (Python's `None`). */
  datatype Option<+T> = None | Some(value: T)

  /** The outcome of an operation that can raise: its value, or the exception. */
  datatype Result<+T, +E> = Ok(value: T) | Err(error: E)

  /** The elements of `s` in the opposite order (Python's `list.reverse`). */
  function Reversed<T>(s: seq<T>): (r: seq<T>)
    ensures |r| == |s|
    ensures forall i | 0 <= i < |s| :: r[i] == s[|s| - 1 - i]
  {
    if s == [] then [] else Reversed(s[1..]) + [s[0]]
  }
}

/**
 * Value types shared by every part of the IES decoder: bytes, the unsigned
 * integer widths of the file format, and the failure-compatible wrappers
 * that stand for the exceptions the decoder can raise.
 */
module Primitives {

  type byte = bv8
  type uint16 = x: int | 0 <= x < 0x1_0000
  type uint32 = x: int | 0 <= x < 0x1_0000_0000

  datatype Option<+T> = None | Some(value: T)

  datatype Result<+T, +E> = Ok(value: T) | Err(error: E) {
    predicate IsFailure() { Err? }

    function PropagateFailure<U>(): Result<U, E>
      requires Err?
    {
      Err(error)
    }

    function Extract(): T
      requires Ok?
    {
      value
    }
  }

  /** Pass or fail, for the decoder's methods that only change state. */
  datatype Outcome<+E> = Pass | Fail(error: E)

  /**
   * The exceptions a decode can end with: a fixed-size read past the end of
   * the buffer (EndOfStreamException), a seek to a negative position
   * (IOException), and a second cell under the same column name in one row
   * (the ArgumentException of Dictionary.Add).
   */
  datatype DecodeError = EndOfStream | SeekBeforeBegin | DuplicateKey(key: seq<byte>)

  /** A value read from the buffer and the position just after it. */
  datatype Parsed<+T> = Parsed(value: T, next: nat)

  /** All elements pairwise different. */
  predicate Distinct<T(==)>(s: seq<T>) {
    forall i, j :: 0 <= i < j < |s| ==> s[i] != s[j]
  }
}

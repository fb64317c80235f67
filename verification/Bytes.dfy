/** Bytes on the wire, and the result types shared by every component. */
module Bytes {
  type byte = b: int | 0 <= b < 256

  datatype Option<+T> = None | Some(value: T)

  /** No byte of `s` is the frame delimiter 0x00. */
  ghost predicate ZeroFree(s: seq<byte>) {
    forall i :: 0 <= i < |s| ==> s[i] != 0
  }
}

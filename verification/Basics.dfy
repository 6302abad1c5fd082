/** Shared vocabulary: optional values, results and byte strings. */
module Basics {

  datatype Option<+T> = None | Some(value: T)

  datatype Result<+T, +E> = Ok(value: T) | Err(error: E)

  /** Text and payloads are byte strings; a Rust `str` is its UTF-8 bytes. */
  type byte = x: int | 0 <= x < 256

  type bytes = seq<byte>

  const SLASH: byte := 47

  function Min(a: nat, b: nat): nat {
    if a <= b then a else b
  }

  ghost predicate Distinct<T>(s: seq<T>) {
    forall i, j | 0 <= i < j < |s| :: s[i] != s[j]
  }

  /** The bytes of an ASCII literal. */
  function Ascii(s: string): (r: bytes)
    ensures |r| == |s|
  {
    seq(|s|, i requires 0 <= i < |s| => s[i] as int % 256)
  }
}

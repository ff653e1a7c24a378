/** Bytes and the result type shared by the modelled components. */
module Bytes {

  /** An unsigned byte, as the C code's `unsigned char`. */
  type byte = x: int | 0 <= x < 256

  datatype Option<+T> = None | Some(value: T)

  function Min(a: int, b: int): (m: int) { if a < b then a else b }

  function Max(a: int, b: int): (m: int) { if a > b then a else b }

  lemma Regroup<T>(a: seq<T>, x: T, b: seq<T>)
    ensures a + ([x] + b) == a + [x] + b
  {
  }

  /** memcpy. */
  method CopyRaw(dest: array<byte>, src: seq<byte>, n: nat)
    requires n <= |src| && n <= dest.Length
    modifies dest
    ensures dest[..n] == src[..n]
  {
    for i := 0 to n
      invariant dest[..i] == src[..i]
    {
      dest[i] := src[i];
    }
  }
}

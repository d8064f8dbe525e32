/** Bytes, byte strings and the small general types the other modules share. */
module Bytes {
  type byte = b: int | 0 <= b < 0x100

  datatype Option<+T> = None | Some(value: T)

  // Conversion to a byte keeps the eight low bits.
  function LowByte(n: nat): byte {
    n % 0x100
  }

  // The bytes of a text in which every character is one byte.
  function Text(s: string): (b: seq<byte>)
    ensures |b| == |s|
  {
    seq(|s|, i requires 0 <= i < |s| => LowByte(s[i] as int))
  }

  function Flatten<T>(parts: seq<seq<T>>): seq<T> {
    if parts == [] then [] else parts[0] + Flatten(parts[1..])
  }
}

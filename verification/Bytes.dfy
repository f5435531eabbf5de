/** Octets, optional values and fixed-width integers in memory, shared by every part of the model. */
module Bytes {
  type byte = x: int | 0 <= x < 256

  datatype Option<+T> = None | Some(value: T)

  function Min(a: nat, b: nat): nat { if a < b then a else b }

  // The number that octets in network order spell.
  function BigEndian(input: seq<byte>): nat {
    if input == [] then 0 else BigEndian(input[..|input| - 1]) * 256 + input[|input| - 1]
  }

  // A 16-bit value in little-endian order, as LZ4_writeLE16 stores it.
  function LE16(x: nat): (b: seq<byte>)
    ensures |b| == 2
  {
    [x % 256, x / 256 % 256]
  }
}

/** Shared value types: UTF-16 code units, lines, and an Option wrapper. */
module Text {

  /** A .NET `char`: one UTF-16 code unit. */
  newtype Char16 = x: int | 0 <= x < 0x1_0000

  /** A .NET `string`, as the sequence of its code units. */
  type Line = seq<Char16>

  datatype Option<+T> = None | Some(value: T)

  /** The .NET `(char)` cast of a non-negative count: truncation to 16 bits. */
  function ToChar16(n: nat): (c: Char16)
    ensures n < 0x1_0000 ==> c as int == n
    ensures c as int == n % 0x1_0000
  {
    (n % 0x1_0000) as Char16
  }
}

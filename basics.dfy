/** Small value types shared by every module of the model. */
module Basics {

  /** A value that may be absent: a row that a query did not find, a header
      field that was not sent. */
  datatype Option<+T> = None | Some(value: T)

  /** Go's `int` on a 64-bit platform, the type `strconv.Atoi` produces. */
  newtype Int64 = i: int | -0x8000_0000_0000_0000 <= i < 0x8000_0000_0000_0000

  const Uint64Modulus: int := 0x1_0000_0000_0000_0000

  /** Go converts an `int` to a `uint` by reinterpreting its 64 bits, so a
      negative id wraps to a very large one. */
  function ToUint(i: int): (u: nat)
    ensures u < Uint64Modulus
    ensures 0 <= i < Uint64Modulus ==> u == i
    ensures -Uint64Modulus < i < 0 ==> u == i + Uint64Modulus
  {
    i % Uint64Modulus
  }
}

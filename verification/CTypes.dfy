// The C types of the engine.
module CTypes {
  // A 64-bit integer: an operation that leaves its range does not verify.
  newtype lng = x: int | -0x8000_0000_0000_0000 <= x < 0x8000_0000_0000_0000

  const MAX_LNG: nat := 0x7FFF_FFFF_FFFF_FFFF

  // The integer types of columns, of one, two, four and eight bytes.
  datatype Kind = Bte | Sht | Int | Lng

  // The largest value of the type; the smallest is nil, the others are the opposites.
  function MaxOf(k: Kind): (m: int)
    ensures m >= 127 && m <= MAX_LNG
  {
    match k
    case Bte => 0x7F
    case Sht => 0x7FFF
    case Int => 0x7FFF_FFFF
    case Lng => MAX_LNG
  }

  function NilOf(k: Kind): int {
    -MaxOf(k) - 1
  }
}

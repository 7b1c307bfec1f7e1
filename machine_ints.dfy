/**
 * Rust's fixed-width integer types as ranges of mathematical integers.
 * The model assumes a 64-bit target, so `usize` has the range of `u64`
 * and `isize` the range of `i64`.
 */
module MachineInts {

  const U8_MAX: int := 0xff
  const U16_MAX: int := 0xffff
  const U32_MAX: int := 0xffff_ffff
  const U64_MAX: int := 0xffff_ffff_ffff_ffff
  const I8_MIN: int := -0x80
  const I8_MAX: int := 0x7f
  const I16_MIN: int := -0x8000
  const I16_MAX: int := 0x7fff
  const I32_MIN: int := -0x8000_0000
  const I32_MAX: int := 0x7fff_ffff
  const I64_MIN: int := -0x8000_0000_0000_0000
  const I64_MAX: int := 0x7fff_ffff_ffff_ffff

  type byte = b: int | 0 <= b <= 0xff
  type u64 = x: int | 0 <= x <= 0xffff_ffff_ffff_ffff
  type i64 = x: int | -0x8000_0000_0000_0000 <= x <= 0x7fff_ffff_ffff_ffff
  type usize = u64

  /** The integer types a value can be narrowed into. */
  datatype IntKind = U8 | U16 | U32 | U64 | Usize | I8 | I16 | I32 | I64 | Isize

  function Min(k: IntKind): int
  {
    match k
    case U8 => 0
    case U16 => 0
    case U32 => 0
    case U64 => 0
    case Usize => 0
    case I8 => I8_MIN
    case I16 => I16_MIN
    case I32 => I32_MIN
    case I64 => I64_MIN
    case Isize => I64_MIN
  }

  function Max(k: IntKind): int
  {
    match k
    case U8 => U8_MAX
    case U16 => U16_MAX
    case U32 => U32_MAX
    case U64 => U64_MAX
    case Usize => U64_MAX
    case I8 => I8_MAX
    case I16 => I16_MAX
    case I32 => I32_MAX
    case I64 => I64_MAX
    case Isize => I64_MAX
  }

  /** Whether `x` is a value of the Rust type `k`. */
  predicate Fits(k: IntKind, x: int)
  {
    Min(k) <= x <= Max(k)
  }

  predicate IsSigned(k: IntKind)
  {
    k in {I8, I16, I32, I64, Isize}
  }
}

/**
 * IEEE 754 binary64 values as raw bit patterns. Arithmetic on floats is
 * not modelled; what the core needs of them is equality (`f64: PartialEq`)
 * and the conversion `f.round() as u64` / `as i64` used when an integer is
 * asked of a float. Both are written out on the bit pattern.
 */
module Float64 {
  import opened MachineInts

  datatype F64 = F64(bits: u64)

  const FRACTION_SPAN: nat := 0x10_0000_0000_0000

  predicate SignBit(f: F64)
  {
    f.bits >= 0x8000_0000_0000_0000
  }

  function Exponent(f: F64): nat
  {
    (f.bits / FRACTION_SPAN) % 2048
  }

  function Fraction(f: F64): nat
  {
    f.bits % FRACTION_SPAN
  }

  predicate IsNaN(f: F64)
  {
    Exponent(f) == 2047 && Fraction(f) != 0
  }

  predicate IsInfinite(f: F64)
  {
    Exponent(f) == 2047 && Fraction(f) == 0
  }

  predicate IsZero(f: F64)
  {
    Exponent(f) == 0 && Fraction(f) == 0
  }

  /** `m << k`. */
  function Shl(m: nat, k: nat): (r: nat)
    ensures m > 0 ==> r >= m
  {
    if k == 0 then m else 2 * Shl(m, k - 1)
  }

  /** `m >> k`: `m` divided by 2^k, rounded down. */
  function Shr(m: nat, k: nat): (r: nat)
    ensures r <= m
  {
    if k == 0 then m else Shr(m / 2, k - 1)
  }

  /**
   * |f| rounded to the nearest integer, halves away from zero (`f64::round`):
   * the significand shifted by the unbiased exponent, plus one when the
   * first bit shifted out is set.
   */
  function RoundedMagnitude(f: F64): nat
    requires !IsNaN(f) && !IsInfinite(f)
  {
    var m: nat := if Exponent(f) == 0 then Fraction(f) else FRACTION_SPAN + Fraction(f);
    var e: nat := if Exponent(f) == 0 then 1 else Exponent(f);
    if e >= 1075 then Shl(m, e - 1075)
    else Shr(m, 1075 - e) + Shr(m, 1074 - e) % 2
  }

  function Clamp(x: int, lo: int, hi: int): (r: int)
    requires lo <= hi
    ensures lo <= r <= hi
    ensures lo <= x <= hi ==> r == x
  {
    if x < lo then lo else if x > hi then hi else x
  }

  /** `f.round() as u64`: NaN gives 0, the cast saturates at 0 and `u64::MAX`. */
  function RoundAsU64(f: F64): (r: u64)
    ensures IsNaN(f) ==> r == 0
    ensures SignBit(f) ==> r == 0
  {
    if IsNaN(f) then 0
    else if IsInfinite(f) then (if SignBit(f) then 0 else U64_MAX)
    else if SignBit(f) then 0
    else Clamp(RoundedMagnitude(f), 0, U64_MAX)
  }

  /** `f.round() as i64`: NaN gives 0, the cast saturates at `i64::MIN` and `i64::MAX`. */
  function RoundAsI64(f: F64): (r: i64)
    ensures IsNaN(f) ==> r == 0
    ensures !SignBit(f) ==> r >= 0
  {
    if IsNaN(f) then 0
    else if IsInfinite(f) then (if SignBit(f) then I64_MIN else I64_MAX)
    else Clamp(if SignBit(f) then -(RoundedMagnitude(f) as int) else RoundedMagnitude(f), I64_MIN, I64_MAX)
  }

  /** `PartialEq for f64`: NaN equals nothing, and the two zeros are equal. */
  predicate Eq(a: F64, b: F64)
  {
    !IsNaN(a) && !IsNaN(b) && (a.bits == b.bits || (IsZero(a) && IsZero(b)))
  }

  /** Float equality is symmetric and transitive but not reflexive: NaN is unequal to itself. */
  lemma EqIsPartialEquivalence(a: F64, b: F64, c: F64)
    ensures Eq(a, b) ==> Eq(b, a)
    ensures Eq(a, b) && Eq(b, c) ==> Eq(a, c)
    ensures Eq(a, a) <==> !IsNaN(a)
  {
  }
}

/**
 * IEEE 754 binary32 values as raw bit patterns, and the widening cast
 * `v as f64` that the MessagePack decoder applies to a `float 32`. The cast
 * is exact: the binary64 result denotes the same number, which the lemmas
 * state by scaling both values to integer multiples of 2^-1074.
 */
module Float32 {
  import opened MachineInts
  import opened Float64

  type u32 = x: int | 0 <= x <= 0xffff_ffff

  const F32_FRACTION_SPAN: nat := 0x80_0000
  const SIGN_SPAN: nat := 0x8000_0000

  function Exponent32(bits: u32): nat
  {
    (bits / F32_FRACTION_SPAN) % 256
  }

  function Fraction32(bits: u32): nat
  {
    bits % F32_FRACTION_SPAN
  }

  function Pow2(n: nat): (r: nat)
    ensures r >= 1
  {
    if n == 0 then 1 else 2 * Pow2(n - 1)
  }

  lemma {:induction false} Pow2Add(a: nat, b: nat)
    ensures Pow2(a + b) == Pow2(a) * Pow2(b)
    decreases a
  {
    if a > 0 {
      Pow2Add(a - 1, b);
      assert Pow2(a + b) == 2 * Pow2(a - 1 + b);
    }
  }

  lemma Pow2Values()
    ensures Pow2(7) == 0x80 && Pow2(11) == 0x800 && Pow2(23) == F32_FRACTION_SPAN
    ensures Pow2(29) == 0x2000_0000 && Pow2(52) == FRACTION_SPAN
  {
    assert Pow2(4) == 16;
    assert Pow2(7) == 0x80;
    Pow2Add(4, 7);
    Pow2Add(11, 11);
    Pow2Add(22, 1);
    Pow2Add(23, 6);
    assert Pow2(6) == 64;
    Pow2Add(23, 29);
  }

  lemma {:induction false} Pow2Monotone(a: nat, b: nat)
    requires a <= b
    ensures Pow2(a) <= Pow2(b)
    decreases b
  {
    if a < b {
      Pow2Monotone(a, b - 1);
    }
  }

  /** The position of the highest set bit of `f`. */
  function HighBit(f: nat): (k: nat)
    requires f >= 1
    ensures Pow2(k) <= f < Pow2(k + 1)
  {
    if f == 1 then 0 else 1 + HighBit(f / 2)
  }

  /** The binary64 with the given sign bit, biased exponent and fraction field. */
  function Assemble(sign: nat, e: nat, f: nat): F64
    requires sign < 2 && e < 2048 && f < FRACTION_SPAN
  {
    F64(sign * 0x8000_0000_0000_0000 + e * FRACTION_SPAN + f)
  }

  /** `v as f64` for the binary32 with bit pattern `bits`. */
  function Widen(bits: u32): F64
  {
    var sign := bits / SIGN_SPAN;
    var e := Exponent32(bits);
    var f := Fraction32(bits);
    if e == 255 then Assemble(sign, 2047, Shift29(f))
    else if e == 0 && f == 0 then Assemble(sign, 0, 0)
    else if e == 0 then Assemble(sign, SubnormalExponent(f), SubnormalFraction(f))
    else Assemble(sign, e + 896, Shift29(f))
  }

  /** A binary32 fraction field moved to the top of a binary64 one. */
  function Shift29(f: nat): (r: nat)
    requires f < F32_FRACTION_SPAN
    ensures r < FRACTION_SPAN
  {
    Pow2Values();
    ShiftFits(f, 23, 29);
    f * Pow2(29)
  }

  /** A subnormal binary32 is a normal binary64: its highest set bit becomes the implicit one. */
  function SubnormalExponent(f: nat): (r: nat)
    requires 1 <= f < F32_FRACTION_SPAN
    ensures 874 <= r < 897
  {
    Pow2Values();
    HighBitBelow(f, 23);
    HighBit(f) + 874
  }

  function SubnormalFraction(f: nat): (r: nat)
    requires 1 <= f < F32_FRACTION_SPAN
    ensures r < FRACTION_SPAN
  {
    var k := HighBit(f);
    var g: nat := f - Pow2(k);
    Pow2Values();
    HighBitBelow(f, 23);
    ShiftFits(g, k, 52 - k);
    Product(g, Pow2(52 - k))
  }

  function Product(a: nat, b: nat): (r: nat)
    ensures r == a * b
  {
    NonNegative(a, b);
    a * b
  }

  lemma NonNegative(a: nat, b: nat)
    ensures a * b >= 0
  {
  }

  lemma HighBitBelow(f: nat, n: nat)
    requires 1 <= f < Pow2(n)
    ensures HighBit(f) < n
  {
    if HighBit(f) >= n {
      Pow2Monotone(n, HighBit(f));
    }
  }

  /** A `k`-bit number shifted left by `j` stays below 2^(k+j). */
  lemma ShiftFits(x: nat, k: nat, j: nat)
    requires x < Pow2(k)
    ensures x * Pow2(j) < Pow2(k + j)
  {
    Pow2Add(k, j);
  }

  /** Reading the fields back from an assembled pattern. */
  lemma AssembleParts(sign: nat, e: nat, f: nat)
    requires sign < 2 && e < 2048 && f < FRACTION_SPAN
    ensures Exponent(Assemble(sign, e, f)) == e && Fraction(Assemble(sign, e, f)) == f
    ensures SignBit(Assemble(sign, e, f)) <==> sign == 1
  {
    var bits := sign * 0x8000_0000_0000_0000 + e * FRACTION_SPAN + f;
    var high := sign * 2048 + e;
    assert bits == high * FRACTION_SPAN + f;
    assert bits / FRACTION_SPAN == high;
    assert high % 2048 == e;
  }

  /** A finite binary32 value times 2^1074: its significand shifted by its unbiased exponent. */
  function Scaled32(bits: u32): nat
  {
    var e := Exponent32(bits);
    if e == 0 then Fraction32(bits) * Pow2(925) else (F32_FRACTION_SPAN + Fraction32(bits)) * Pow2(e + 924)
  }

  /** A finite binary64 value times 2^1074. */
  function Scaled64(x: F64): nat
  {
    var e := Exponent(x);
    if e == 0 then Fraction(x) else (FRACTION_SPAN + Fraction(x)) * Pow2(e - 1)
  }

  /**
   * Widening is exact: a finite binary32 becomes the binary64 with the same
   * sign and the same value, infinities stay infinities and NaN stays NaN.
   */
  lemma WidenIsExact(bits: u32)
    ensures SignBit(Widen(bits)) <==> bits >= SIGN_SPAN
    ensures Exponent32(bits) == 255 && Fraction32(bits) == 0 ==> IsInfinite(Widen(bits))
    ensures Exponent32(bits) == 255 && Fraction32(bits) != 0 ==> IsNaN(Widen(bits))
    ensures Exponent32(bits) != 255 ==>
      !IsNaN(Widen(bits)) && !IsInfinite(Widen(bits)) && Scaled64(Widen(bits)) == Scaled32(bits)
  {
    var e := Exponent32(bits);
    var f := Fraction32(bits);
    if e == 0 && f != 0 {
      WidenSubnormal(bits);
    } else if e == 0 || e == 255 {
      AssembleParts(bits / SIGN_SPAN, if e == 0 then 0 else 2047, if e == 0 then 0 else Shift29(f));
    } else {
      WidenNormal(bits);
    }
  }

  lemma WidenNormal(bits: u32)
    requires 1 <= Exponent32(bits) <= 254
    ensures SignBit(Widen(bits)) <==> bits >= SIGN_SPAN
    ensures !IsNaN(Widen(bits)) && !IsInfinite(Widen(bits)) && Scaled64(Widen(bits)) == Scaled32(bits)
  {
    var e := Exponent32(bits);
    var f := Fraction32(bits);
    assert Widen(bits) == Assemble(bits / SIGN_SPAN, e + 896, Shift29(f));
    AssembleParts(bits / SIGN_SPAN, e + 896, Shift29(f));
    NormalScaled(Widen(bits));
    Pow2Values();
    NormalExact(f, e);
  }

  lemma WidenSubnormal(bits: u32)
    requires Exponent32(bits) == 0 && Fraction32(bits) != 0
    ensures SignBit(Widen(bits)) <==> bits >= SIGN_SPAN
    ensures !IsNaN(Widen(bits)) && !IsInfinite(Widen(bits)) && Scaled64(Widen(bits)) == Scaled32(bits)
  {
    var f := Fraction32(bits);
    assert Widen(bits) == Assemble(bits / SIGN_SPAN, SubnormalExponent(f), SubnormalFraction(f));
    AssembleParts(bits / SIGN_SPAN, SubnormalExponent(f), SubnormalFraction(f));
    NormalScaled(Widen(bits));
    SubnormalScaled(f);
  }

  /** A normal binary64 times 2^1074: the significand with its implicit bit, shifted by the exponent. */
  lemma NormalScaled(x: F64)
    requires Exponent(x) != 0
    ensures Scaled64(x) == (FRACTION_SPAN + Fraction(x)) * Pow2(Exponent(x) - 1)
  {
  }

  /** The widened subnormal scales to the same value as the binary32 one. */
  lemma SubnormalScaled(f: nat)
    requires 1 <= f < F32_FRACTION_SPAN
    ensures (FRACTION_SPAN + SubnormalFraction(f)) * Pow2(SubnormalExponent(f) - 1) == f * Pow2(925)
  {
    var k := HighBit(f);
    Pow2Values();
    HighBitBelow(f, 23);
    assert SubnormalExponent(f) - 1 == k + 873;
    assert SubnormalFraction(f) == (f - Pow2(k)) * Pow2(52 - k);
    SubnormalExact(f, k);
  }

  lemma NormalExact(f: nat, e: nat)
    requires 1 <= e && Pow2(29) == 0x2000_0000 && Pow2(23) == F32_FRACTION_SPAN && Pow2(52) == FRACTION_SPAN
    ensures (FRACTION_SPAN + f * Pow2(29)) * Pow2(e + 895) == (F32_FRACTION_SPAN + f) * Pow2(e + 924)
  {
    Pow2Add(29, e + 895);
    var p := Pow2(e + 895);
    assert FRACTION_SPAN + f * Pow2(29) == (F32_FRACTION_SPAN + f) * 0x2000_0000;
    Assoc(F32_FRACTION_SPAN + f, 0x2000_0000, p);
  }

  lemma SubnormalExact(f: nat, k: nat)
    requires 1 <= f && k <= 52 && Pow2(k) <= f && Pow2(52) == FRACTION_SPAN
    ensures (FRACTION_SPAN + (f - Pow2(k)) * Pow2(52 - k)) * Pow2(k + 873) == f * Pow2(925)
  {
    var p := Pow2(k);
    var q := Pow2(52 - k);
    var g: nat := f - p;
    Pow2Add(k, 52 - k);
    assert FRACTION_SPAN == p * q;
    Distrib(p, g, q);
    assert FRACTION_SPAN + g * q == f * q;
    Pow2Add(52 - k, k + 873);
    Assoc(f, q, Pow2(k + 873));
  }

  lemma Distrib(a: nat, b: nat, c: nat)
    ensures (a + b) * c == a * c + b * c
  {
  }

  lemma Assoc(a: nat, b: nat, c: nat)
    ensures a * b * c == a * (b * c)
  {
  }
}

/**
 * ASCII decimal digits: the value of a digit string and the shortest
 * decimal form of an integer, as `itoa` and `i64::to_string` write it
 * (a leading `-` for negatives, no leading zeros, `0` for zero).
 */
module Decimal {
  import opened MachineInts

  const ZERO: byte := 0x30
  const MINUS: byte := 0x2D

  /** `u8::is_ascii_digit`. */
  predicate IsDigit(b: byte)
  {
    0x30 <= b <= 0x39
  }

  predicate AllDigits(s: seq<byte>)
  {
    forall i :: 0 <= i < |s| ==> IsDigit(s[i])
  }

  function Pow10(n: nat): (r: nat)
    ensures r >= 1
  {
    if n == 0 then 1 else 10 * Pow10(n - 1)
  }

  /** The number a string of digits denotes, most significant digit first. */
  function Value(s: seq<byte>): (v: nat)
    requires AllDigits(s)
    ensures v < Pow10(|s|)
  {
    if s == [] then 0 else 10 * Value(s[..|s| - 1]) + (s[|s| - 1] - ZERO) as nat
  }

  /** The digits of `n`: no leading zero, and `0` for zero. */
  function Digits(n: nat): (s: seq<byte>)
    ensures 1 <= |s| && AllDigits(s)
    ensures n > 0 ==> s[0] != ZERO
    ensures n == 0 ==> s == [ZERO]
  {
    if n < 10 then [ZERO + n as byte]
    else Digits(n / 10) + [ZERO + (n % 10) as byte]
  }

  /** The decimal form of a signed integer. */
  function Format(n: int): (s: seq<byte>)
    ensures |s| >= 1
  {
    if n < 0 then [MINUS] + Digits(-n) else Digits(n)
  }

  /** The digits of `n` denote `n`. */
  lemma {:induction false} ValueOfDigits(n: nat)
    ensures Value(Digits(n)) == n
  {
    if n >= 10 {
      ValueOfDigits(n / 10);
      var s := Digits(n);
      assert s[..|s| - 1] == Digits(n / 10);
    }
  }

  /** `n` has at most `k` digits exactly when it is below 10^k. */
  lemma {:induction false} DigitsLength(n: nat, k: nat)
    ensures |Digits(n)| <= k <==> n < Pow10(k) && k >= 1
  {
    if n >= 10 {
      if k >= 1 {
        DigitsLength(n / 10, k - 1);
      }
    } else if k >= 1 {
      PowAtLeastTen(k);
    }
  }

  lemma PowAtLeastTen(k: nat)
    requires k >= 1
    ensures Pow10(k) >= 10
  {
    if k > 1 {
      PowAtLeastTen(k - 1);
    }
  }

  /** Splitting a digit string: the prefix's value scaled, plus the suffix's. */
  lemma {:induction false} ValueAppend(a: seq<byte>, b: seq<byte>)
    requires AllDigits(a) && AllDigits(b)
    ensures AllDigits(a + b)
    ensures Value(a + b) == Value(a) * Pow10(|b|) + Value(b)
    decreases |b|
  {
    assert AllDigits(a + b) by {
      forall i | 0 <= i < |a + b| ensures IsDigit((a + b)[i]) {
        if i >= |a| { assert (a + b)[i] == b[i - |a|]; }
      }
    }
    if b == [] {
      assert a + b == a;
    } else {
      var b' := b[..|b| - 1];
      ValueAppend(a, b');
      assert (a + b)[..|a + b| - 1] == a + b';
      var d := (b[|b| - 1] - ZERO) as nat;
      assert b[..|b| - 1] == b';
      assert Value(b) == 10 * Value(b') + d;
      assert Pow10(|b|) == 10 * Pow10(|b'|);
      Rescale(Value(a), Pow10(|b'|), Value(b'), d);
      assert Value(a + b) == 10 * Value(a + b') + d;
    }
  }

  lemma Rescale(x: int, p: int, y: int, d: int)
    ensures 10 * (x * p + y) + d == x * (10 * p) + (10 * y + d)
  {
  }
}

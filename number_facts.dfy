/**
 * What the number scanner's specification functions mean: the integers
 * `IntParse::parse` accepts are exactly the decimal forms of the integers
 * below 10^18 in magnitude (plus `-0`), what `NumberRange::decode` accepts
 * is an RFC 8259 number, and the two scanners agree on every integer the
 * first accepts.
 */
module NumberFacts {
  import opened Wrappers
  import opened MachineInts
  import opened Decimal
  import opened NumberDecoder

  // ----- digit runs -----

  /** A run of digits that stops at `j` is the maximal run at `i`. */
  lemma {:induction false} RunOfDigits(data: seq<byte>, i: nat, j: nat)
    requires i <= j <= |data| && AllDigits(data[i..j]) && !DigitAt(data, j)
    ensures DigitRun(data, i) == data[i..j]
    decreases j - i
  {
    if i < j {
      assert data[i..j][0] == data[i];
      assert data[i + 1..j] == data[i..j][1..];
      RunOfDigits(data, i + 1, j);
      assert data[i..j] == [data[i]] + data[i + 1..j];
    }
  }

  /** The digit string of a positive number starts with 1-9. */
  lemma LeadingDigit(n: nat)
    requires n > 0
    ensures 0x31 <= Digits(n)[0] <= 0x39
  {
  }

  /** A digit string with no leading zero is the decimal form of its value. */
  lemma {:induction false} DigitsOfValue(s: seq<byte>)
    requires |s| >= 1 && AllDigits(s) && s[0] != ZERO
    ensures Value(s) >= 1 && Digits(Value(s)) == s
    decreases |s|
  {
    if |s| == 1 {
      assert s[..0] == [];
    } else {
      var front := s[..|s| - 1];
      var last := s[|s| - 1];
      DigitsOfValue(front);
      var q := Value(front);
      var r := (last - ZERO) as nat;
      assert Value(s) == 10 * q + r;
      DivMod10(q, r);
      assert s == front + [ZERO + r as byte];
    }
  }

  lemma DivMod10(q: nat, r: nat)
    requires q >= 1 && r < 10
    ensures 10 * q + r >= 10 && (10 * q + r) / 10 == q && (10 * q + r) % 10 == r
  {
  }

  // ----- IntParse::parse and decimal formatting -----

  /** The literal an integer accepted by `IntParse::parse` was written as. */
  predicate IntLiteralOf(lit: seq<byte>, n: int)
  {
    lit == Format(n) || (n == 0 && lit == [MINUS, ZERO])
  }

  /**
   * An integer below 10^18 in magnitude, written in decimal at `i` and
   * followed by neither a digit nor a float mark, parses back to itself,
   * ending just after its last digit.
   */
  lemma FormatParses(data: seq<byte>, i: nat, n: int)
    requires -1_000_000_000_000_000_000 < n < 1_000_000_000_000_000_000
    requires i + |Format(n)| <= |data| && data[i..i + |Format(n)|] == Format(n)
    requires !DigitAt(data, i + |Format(n)|) && !FloatMarkAt(data, i + |Format(n)|)
    ensures ParseSpec(data, i, data[i]) == Ok((IntParse.Int(NumberInt.Int(n)), i + |Format(n)|))
  {
    var f := Format(n);
    var e := i + |f|;
    assert data[i] == f[0];
    if n > 0 {
      assert data[i..e] == Digits(n);
      DigitsSpecOf(data, i, e, n, true);
    } else if n < 0 {
      assert data[i + 1..e] == Digits(-n);
      DigitsSpecOf(data, i + 1, e, -n, false);
    }
  }

  /** After a non-zero first digit at `s`, the decimal form of `m` reads as `m` (negated after `-`). */
  lemma DigitsSpecOf(data: seq<byte>, s: nat, e: nat, m: nat, positive: bool)
    requires 0 < m < 1_000_000_000_000_000_000
    requires s < e <= |data| && data[s..e] == Digits(m)
    requires !DigitAt(data, e) && !FloatMarkAt(data, e)
    ensures 0x31 <= data[s] <= 0x39
    ensures LeadSpec(data, s, data[s], positive) == Ok((IntParse.Int(NumberInt.Int(if positive then m as int else -(m as int))), e))
  {
    var lit := Digits(m);
    LeadingDigit(m);
    assert data[s] == lit[0];
    ValueOfDigits(m);
    DigitsLength(m, 18);
    Pow10Of18();
    assert data[s + 1..e] == lit[1..];
    RunOfDigits(data, s + 1, e);
    assert [data[s]] + lit[1..] == lit;
    DigitsSpecValue(data, s + 1, data[s], positive, lit[1..], e, m);
    assert LeadSpec(data, s, data[s], positive) == DigitsSpec(data, s + 1, data[s], positive);
  }

  /** `DigitsSpec` on a run of fewer than 18 more digits with no float mark after it. */
  lemma DigitsSpecValue(data: seq<byte>, next: nat, d: byte, positive: bool, run: seq<byte>, end: nat, m: nat)
    requires 0x31 <= d <= 0x39 && m < 1_000_000_000_000_000_000
    requires run == DigitRun(data, next) && end == next + |run| && |run| < 18 && !FloatMarkAt(data, end)
    requires AllDigits([d] + run) && Value([d] + run) == m
    ensures DigitsSpec(data, next, d, positive) ==
      Ok((IntParse.Int(NumberInt.Int(if positive then m as int else -(m as int))), end))
  {
  }

  /**
   * Every integer `IntParse::parse` accepts at `i` was written in decimal
   * form there (or as `-0`), is below 10^18 in magnitude, and is followed by
   * neither a digit nor a float mark.
   */
  lemma ParsedIsFormat(data: seq<byte>, i: nat, n: i64, end: nat)
    requires i < |data| && ParseSpec(data, i, data[i]) == Ok((IntParse.Int(NumberInt.Int(n)), end))
    ensures i < end <= |data| && IntLiteralOf(data[i..end], n)
    ensures -1_000_000_000_000_000_000 < n < 1_000_000_000_000_000_000
    ensures !DigitAt(data, end) && !FloatMarkAt(data, end)
  {
    var positive := data[i] != MINUS;
    var s := if positive then i else i + 1;
    assert data[i] != LETTER_N;
    ParseLeads(data, i);
    if data[s] == ZERO {
      assert ZeroSpec(data, s + 1) == Ok((IntParse.Int(NumberInt.Int(n)), end));
      assert n == 0 && end == s + 1;
      assert data[i..end] == if positive then [ZERO] else [MINUS, ZERO];
    } else {
      var lit := LiteralOf(data, s, positive, n, end);
      SignedLiteral(data, i, s, end, Value(lit), lit, positive);
    }
  }

  /** A sign (or none) before a decimal form without leading zeros is the decimal form of the signed value. */
  lemma SignedLiteral(data: seq<byte>, i: nat, s: nat, end: nat, v: nat, lit: seq<byte>, positive: bool)
    requires i <= s < end <= |data| && lit == data[s..end] && v >= 1 && Digits(v) == lit
    requires positive ==> s == i
    requires !positive ==> s == i + 1 && data[i] == MINUS
    ensures data[i..end] == Format(if positive then v as int else -(v as int))
  {
    if !positive {
      assert data[i..end] == [MINUS] + data[s..end];
    }
  }

  /** The digits `LeadSpec` accepted after a non-zero first digit. */
  lemma LiteralOf(data: seq<byte>, s: nat, positive: bool, n: i64, end: nat) returns (lit: seq<byte>)
    requires s < |data| && 0x31 <= data[s] <= 0x39
    requires LeadSpec(data, s, data[s], positive) == Ok((IntParse.Int(NumberInt.Int(n)), end))
    ensures s < end <= |data| && lit == data[s..end] && |lit| <= 18 && AllDigits(lit) && lit[0] != ZERO
    ensures Value(lit) < 1_000_000_000_000_000_000 && Digits(Value(lit)) == lit
    ensures n == if positive then Value(lit) as int else -(Value(lit) as int)
    ensures !DigitAt(data, end) && !FloatMarkAt(data, end)
  {
    assert LeadSpec(data, s, data[s], positive) == DigitsSpec(data, s + 1, data[s], positive);
    DigitsSpecInverse(data, s + 1, data[s], positive, n, end);
    var run := DigitRun(data, s + 1);
    lit := [data[s]] + run;
    LiteralRun(data, s, end, run, lit);
  }

  /** The digits from a leading 1-9 through the run after it. */
  lemma LiteralRun(data: seq<byte>, s: nat, end: nat, run: seq<byte>, lit: seq<byte>)
    requires s < |data| && 0x31 <= data[s] <= 0x39 && run == DigitRun(data, s + 1) && end == s + 1 + |run| && |run| < 18
    requires lit == [data[s]] + run && AllDigits(lit)
    ensures end <= |data| && lit == data[s..end] && |lit| <= 18 && lit[0] != ZERO
    ensures Value(lit) < 1_000_000_000_000_000_000 && Digits(Value(lit)) == lit
  {
    assert lit == data[s..end] by {
      if run != [] {
        assert data[s + 1..end] == run;
      }
      assert data[s..end] == [data[s]] + data[s + 1..end];
    }
    Bound18(lit);
    DigitsOfValue(lit);
  }

  /** What an integer accepted by `DigitsSpec` was read from. */
  lemma DigitsSpecInverse(data: seq<byte>, next: nat, d: byte, positive: bool, n: i64, end: nat)
    requires 0x31 <= d <= 0x39 && DigitsSpec(data, next, d, positive) == Ok((IntParse.Int(NumberInt.Int(n)), end))
    ensures var run := DigitRun(data, next);
      AllDigits([d] + run) && |run| < 18 && end == next + |run| && !FloatMarkAt(data, end) &&
      n == if positive then Value([d] + run) as int else -(Value([d] + run) as int)
  {
    var run := DigitRun(data, next);
    assert forall k :: 1 <= k < |[d] + run| ==> ([d] + run)[k] == run[k - 1];
  }

  /**
   * `NumberInt::try_from` and `IntParse::parse` at index 0 accept the
   * decimal form of every integer below 10^18 in magnitude, and only such
   * literals: the slice is an integer literal exactly when it is one.
   */
  lemma WholeSliceIsInt(value: seq<byte>, n: i64)
    requires value != []
    ensures ParseSpec(value, 0, value[0]) == Ok((IntParse.Int(NumberInt.Int(n)), |value|))
        <==> IntLiteralOf(value, n) && -1_000_000_000_000_000_000 < n < 1_000_000_000_000_000_000
  {
    if ParseSpec(value, 0, value[0]) == Ok((IntParse.Int(NumberInt.Int(n)), |value|)) {
      ParsedIsFormat(value, 0, n, |value|);
      assert value[0..|value|] == value;
    } else if IntLiteralOf(value, n) && -1_000_000_000_000_000_000 < n < 1_000_000_000_000_000_000 {
      if value == Format(n) {
        assert value[0..|Format(n)|] == Format(n);
        FormatParses(value, 0, n);
      }
    }
  }

  /** An integer part of 19 digits or more is out of range for `IntParse::parse`, whatever follows. */
  lemma NineteenDigitsOutOfRange(data: seq<byte>, i: nat)
    requires i < |data| && 0x31 <= data[i] <= 0x39 && |DigitRun(data, i + 1)| >= 18
    ensures ParseSpec(data, i, data[i]) == Fail(NumberOutOfRange, i + 1)
  {
  }

  // ----- the RFC 8259 number grammar -----

  predicate IsExponentMark(b: byte)
  {
    b == LOWER_E || b == UPPER_E
  }

  /** `int = zero / ( digit1-9 *DIGIT )` */
  predicate IsIntPart(s: seq<byte>)
  {
    |s| >= 1 && AllDigits(s) && (s[0] == ZERO ==> |s| == 1)
  }

  /** `frac = decimal-point 1*DIGIT`, or nothing. */
  predicate IsFracPart(s: seq<byte>)
  {
    s == [] || (|s| >= 2 && s[0] == DOT && AllDigits(s[1..]))
  }

  /** `exp = e [ minus / plus ] 1*DIGIT`, or nothing. */
  predicate IsExpPart(s: seq<byte>)
  {
    s == [] ||
    (|s| >= 2 && IsExponentMark(s[0]) &&
      ((AllDigits(s[1..])) || (|s| >= 3 && (s[1] == MINUS || s[1] == PLUS) && AllDigits(s[2..]))))
  }

  /** An unsigned number whose integer part ends at `b` and whose fraction ends at `c`. */
  predicate IsUnsignedSplit(u: seq<byte>, b: nat, c: nat)
  {
    b <= c <= |u| && IsIntPart(u[..b]) && IsFracPart(u[b..c]) && IsExpPart(u[c..])
  }

  /**
   * `number = [ minus ] int [ frac ] [ exp ]`: the sign ends at `a`, and the
   * rest splits at `b` and `c` (counted from `a`) into the three parts.
   */
  predicate IsNumberSplit(s: seq<byte>, a: nat, b: nat, c: nat)
  {
    a <= |s| && (s[..a] == [] || s[..a] == [MINUS]) && IsUnsignedSplit(s[a..], b, c)
  }

  /** One step of `NumberRange::decode` past the optional sign. */
  lemma RangeLeads(data: seq<byte>, start: nat, allowInfNan: bool,
                   ci: (seq<byte>, nat) -> JsonResult<nat>, cn: (seq<byte>, nat) -> JsonResult<nat>)
    requires start < |data| && data[start] != LETTER_N
    ensures var s := if data[start] != MINUS then start else start + 1;
      RangeSpec(data, start, data[start], allowInfNan, ci, cn) ==
        if s >= |data| then Fail(EofWhileParsingValue, s) else LeadRangeSpec(data, start, s, data[start] != MINUS, allowInfNan, ci)
  {
  }

  /** One step of `IntParse::parse` past the optional sign. */
  lemma ParseLeads(data: seq<byte>, start: nat)
    requires start < |data| && data[start] != LETTER_N
    ensures var s := if data[start] != MINUS then start else start + 1;
      ParseSpec(data, start, data[start]) ==
        if s >= |data| then Fail(EofWhileParsingValue, s) else LeadSpec(data, s, data[s], data[start] != MINUS)
  {
  }

  // The scanners' lemmas work on index ranges of the input; the bridge
  // lemmas below turn those into the slice-level grammar above.

  /** Every byte in `data[i..j]` is a digit. */
  predicate DigitsBetween(data: seq<byte>, i: nat, j: nat)
  {
    i <= j <= |data| && forall k :: i <= k < j ==> IsDigit(data[k])
  }

  /** `int` in `data[p..q]`. */
  predicate IntPartAt(data: seq<byte>, p: nat, q: nat)
  {
    p < q <= |data| && DigitsBetween(data, p, q) && (data[p] == ZERO ==> q == p + 1)
  }

  /** `frac`, or nothing, in `data[p..q]`. */
  predicate FracPartAt(data: seq<byte>, p: nat, q: nat)
  {
    q == p || (p + 2 <= q <= |data| && data[p] == DOT && DigitsBetween(data, p + 1, q))
  }

  /** `exp`, or nothing, in `data[p..q]`. */
  predicate ExpPartAt(data: seq<byte>, p: nat, q: nat)
  {
    q == p ||
    (p + 2 <= q <= |data| && IsExponentMark(data[p]) &&
      (DigitsBetween(data, p + 1, q) ||
       (p + 3 <= q && (data[p + 1] == MINUS || data[p + 1] == PLUS) && DigitsBetween(data, p + 2, q))))
  }

  lemma DigitsSlice(data: seq<byte>, i: nat, j: nat)
    requires DigitsBetween(data, i, j)
    ensures AllDigits(data[i..j])
  {
    forall k | 0 <= k < j - i
      ensures IsDigit(data[i..j][k])
    {
      assert data[i..j][k] == data[i + k];
    }
  }

  lemma DigitsExtend(data: seq<byte>, i: nat, j: nat)
    requires i < |data| && IsDigit(data[i]) && DigitsBetween(data, i + 1, j)
    ensures DigitsBetween(data, i, j)
  {
  }

  /** The run of digits at `i`, as an index range. */
  lemma RunSpan(data: seq<byte>, i: nat)
    requires i <= |data|
    ensures var j := i + |DigitRun(data, i)|;
      DigitsBetween(data, i, j) && !DigitAt(data, j)
  {
    var run := DigitRun(data, i);
    if run != [] {
      forall k | i <= k < i + |run|
        ensures IsDigit(data[k])
      {
        assert data[k] == run[k - i];
      }
    }
  }

  lemma FracSlice(data: seq<byte>, p: nat, q: nat)
    requires p <= q <= |data| && FracPartAt(data, p, q)
    ensures IsFracPart(data[p..q])
  {
    if q > p {
      assert data[p..q][1..] == data[p + 1..q];
      DigitsSlice(data, p + 1, q);
    }
  }

  lemma ExpSlice(data: seq<byte>, p: nat, q: nat)
    requires p <= q <= |data| && ExpPartAt(data, p, q)
    ensures IsExpPart(data[p..q])
  {
    if q > p {
      var u := data[p..q];
      assert u[0] == data[p];
      if DigitsBetween(data, p + 1, q) {
        assert u[1..] == data[p + 1..q];
        DigitsSlice(data, p + 1, q);
      } else {
        assert u[1] == data[p + 1];
        assert u[2..] == data[p + 2..q];
        DigitsSlice(data, p + 2, q);
      }
    }
  }

  /** Three adjacent parts of the input make an unsigned number, split at `b` and `c` counted from `p`. */
  lemma UnsignedAt(data: seq<byte>, p: nat, intEnd: nat, fracEnd: nat, e: nat) returns (b: nat, c: nat)
    requires p <= intEnd <= fracEnd <= e <= |data|
    requires IntPartAt(data, p, intEnd) && FracPartAt(data, intEnd, fracEnd) && ExpPartAt(data, fracEnd, e)
    ensures b == intEnd - p && c == fracEnd - p && IsUnsignedSplit(data[p..e], b, c)
  {
    b, c := intEnd - p, fracEnd - p;
    var u := data[p..e];
    assert u[..b] == data[p..intEnd];
    DigitsSlice(data, p, intEnd);
    assert u[b..c] == data[intEnd..fracEnd] by {
      forall k | 0 <= k < c - b
        ensures u[b..c][k] == data[intEnd..fracEnd][k]
      {
        assert u[b + k] == data[intEnd + k];
      }
    }
    FracSlice(data, intEnd, fracEnd);
    assert u[c..] == data[fracEnd..e];
    ExpSlice(data, fracEnd, e);
  }

  /** A sign (or none) from `start` to `s` before an unsigned number makes a number. */
  lemma SignedAt(data: seq<byte>, start: nat, s: nat, intEnd: nat, fracEnd: nat, e: nat) returns (a: nat, b: nat, c: nat)
    requires start <= s <= start + 1 && s <= intEnd <= fracEnd <= e <= |data| && (s == start + 1 ==> data[start] == MINUS)
    requires IntPartAt(data, s, intEnd) && FracPartAt(data, intEnd, fracEnd) && ExpPartAt(data, fracEnd, e)
    ensures a == s - start && b == intEnd - s && c == fracEnd - s
    ensures IsNumberSplit(data[start..e], a, b, c)
  {
    a := s - start;
    b, c := UnsignedAt(data, s, intEnd, fracEnd, e);
    var lit := data[start..e];
    assert lit[a..] == data[s..e];
    if a == 1 {
      assert lit[..1] == [MINUS];
    } else {
      assert lit[..0] == [];
    }
  }

  /** Where the exponent scan stops, the bytes read form an exponent's digits and a digit does not follow. */
  lemma ExponentGrammar(data: seq<byte>, i: nat, e: nat)
    requires 1 <= i && ExponentialEnd(data, i) == Ok(e) && IsExponentMark(data[i - 1])
    ensures i < e <= |data| && ExpPartAt(data, i - 1, e) && !DigitAt(data, e)
  {
    var from := if data[i] == MINUS || data[i] == PLUS then i + 1 else i;
    assert DigitsEnd(data, from) == Ok(e);
    RunSpan(data, from);
  }

  /** Where the fraction scan stops, the bytes read form a fraction, maybe an exponent, and a digit does not follow. */
  lemma DecimalGrammar(data: seq<byte>, i: nat, e: nat) returns (c: nat)
    requires 1 <= i && DecimalEnd(data, i) == Ok(e) && data[i - 1] == DOT
    ensures i < c <= e <= |data| && FracPartAt(data, i - 1, c) && ExpPartAt(data, c, e) && !DigitAt(data, e)
  {
    assert DigitsEnd(data, i).Ok?;
    c := i + |DigitRun(data, i)|;
    RunSpan(data, i);
    if ExponentAt(data, c) {
      ExponentGrammar(data, c + 1, e);
    }
  }

  /** After the integer part ending at `intEnd`: a fraction ending at `c`, then an exponent. */
  lemma AfterGrammar(data: seq<byte>, start: nat, intEnd: nat, range: NumberRange, end: nat) returns (c: nat)
    requires intEnd <= |data| && !DigitAt(data, intEnd) && AfterDigitsSpec(data, start, intEnd) == Ok((range, end))
    ensures range.start == start && range.end == end && intEnd <= c <= end <= |data|
    ensures FracPartAt(data, intEnd, c) && ExpPartAt(data, c, end)
    ensures (range.isInt <==> c == end == intEnd) && !DigitAt(data, end)
  {
    if intEnd < |data| && data[intEnd] == DOT {
      c := DecimalGrammar(data, intEnd + 1, end);
    } else if ExponentAt(data, intEnd) {
      ExponentGrammar(data, intEnd + 1, end);
      c := intEnd;
    } else {
      c := intEnd;
    }
  }

  /** After a leading `0` at `next - 1`, the bytes read form an unsigned number. */
  lemma ZeroGrammar(data: seq<byte>, start: nat, next: nat, range: NumberRange, end: nat) returns (c: nat)
    requires 1 <= next <= |data| && data[next - 1] == ZERO && ZeroRangeSpec(data, start, next) == Ok((range, end))
    ensures range.start == start && range.end == end && next <= c <= end <= |data|
    ensures IntPartAt(data, next - 1, next) && FracPartAt(data, next, c) && ExpPartAt(data, c, end)
    ensures (range.isInt <==> c == end == next) && !DigitAt(data, end)
  {
    assert ZeroRangeSpec(data, start, next) == AfterDigitsSpec(data, start, next);
    c := AfterGrammar(data, start, next, range, end);
  }

  /** After a leading digit 1-9 at `from - 1`, the bytes read form an unsigned number. */
  lemma IntGrammar(data: seq<byte>, start: nat, from: nat, range: NumberRange, end: nat) returns (b: nat, c: nat)
    requires 1 <= from <= |data| && 0x31 <= data[from - 1] <= 0x39 && IntRangeSpec(data, start, from) == Ok((range, end))
    ensures range.start == start && range.end == end && from <= b <= c <= end <= |data|
    ensures IntPartAt(data, from - 1, b) && FracPartAt(data, b, c) && ExpPartAt(data, c, end)
    ensures (range.isInt <==> b == c == end) && !DigitAt(data, end)
  {
    b := from + |DigitRun(data, from)|;
    assert IntRangeSpec(data, start, from) == AfterDigitsSpec(data, start, b);
    RunSpan(data, from);
    DigitsExtend(data, from - 1, b);
    c := AfterGrammar(data, start, b, range, end);
  }

  /** Without `allow_inf_nan`, a number read past its sign starts with a digit. */
  lemma LeadCases(data: seq<byte>, start: nat, s: nat, positive: bool,
                  ci: (seq<byte>, nat) -> JsonResult<nat>, range: NumberRange, end: nat)
    requires s < |data| && LeadRangeSpec(data, start, s, positive, false, ci) == Ok((range, end))
    ensures data[s] == ZERO ==> ZeroRangeSpec(data, start, s + 1) == Ok((range, end))
    ensures data[s] != ZERO ==> 0x31 <= data[s] <= 0x39 && IntRangeSpec(data, start, s + 1) == Ok((range, end))
  {
  }

  /**
   * Unless it read `Infinity` or `NaN` (which only happens with
   * `allow_inf_nan` on), `NumberRange::decode` succeeds only on an RFC 8259
   * number, reports an integer exactly when the number has neither fraction
   * nor exponent, and stops where no digit follows.
   */
  lemma RangeIsNumber(data: seq<byte>, start: nat, ci: (seq<byte>, nat) -> JsonResult<nat>,
                      cn: (seq<byte>, nat) -> JsonResult<nat>) returns (a: nat, b: nat, c: nat)
    requires start < |data| && RangeSpec(data, start, data[start], false, ci, cn).Ok?
    ensures var range := RangeSpec(data, start, data[start], false, ci, cn).value.0;
      var end := RangeSpec(data, start, data[start], false, ci, cn).value.1;
      range.start == start && range.end == end && start < end <= |data| &&
      IsNumberSplit(data[start..end], a, b, c) &&
      (range.isInt <==> b == c == end - start - a) &&
      !DigitAt(data, end)
  {
    var positive := data[start] != MINUS;
    var s := if positive then start else start + 1;
    assert data[start] != LETTER_N;
    RangeLeads(data, start, false, ci, cn);
    var (range, end) := RangeSpec(data, start, data[start], false, ci, cn).value;
    a, b, c := LeadIsNumber(data, start, s, ci, range, end);
  }

  /** `RangeIsNumber` past the optional sign, from the first digit at `s`. */
  lemma LeadIsNumber(data: seq<byte>, start: nat, s: nat, ci: (seq<byte>, nat) -> JsonResult<nat>,
                     range: NumberRange, end: nat) returns (a: nat, b: nat, c: nat)
    requires start < |data| && s == (if data[start] != MINUS then start else start + 1)
    requires s < |data| && LeadRangeSpec(data, start, s, data[start] != MINUS, false, ci) == Ok((range, end))
    ensures range.start == start && range.end == end && start < end <= |data|
    ensures IsNumberSplit(data[start..end], a, b, c)
    ensures (range.isInt <==> b == c == end - start - a) && !DigitAt(data, end)
  {
    LeadCases(data, start, s, data[start] != MINUS, ci, range, end);
    var intEnd, fracEnd;
    if data[s] == ZERO {
      intEnd := s + 1;
      fracEnd := ZeroGrammar(data, start, s + 1, range, end);
    } else {
      intEnd, fracEnd := IntGrammar(data, start, s + 1, range, end);
    }
    a, b, c := SignedAt(data, start, s, intEnd, fracEnd, end);
  }

  /**
   * On every integer `IntParse::parse` accepts, `NumberRange::decode`
   * reports an integer range of the same extent.
   */
  lemma RangeAgreesWithParse(data: seq<byte>, start: nat, n: i64, end: nat, allowInfNan: bool,
                             ci: (seq<byte>, nat) -> JsonResult<nat>, cn: (seq<byte>, nat) -> JsonResult<nat>)
    requires start < |data| && ParseSpec(data, start, data[start]) == Ok((IntParse.Int(NumberInt.Int(n)), end))
    ensures RangeSpec(data, start, data[start], allowInfNan, ci, cn) == Ok((NumberRange(start, end, true), end))
  {
    var positive := data[start] != MINUS;
    var s := if positive then start else start + 1;
    assert data[start] != LETTER_N;
    ParseLeads(data, start);
    RangeLeads(data, start, allowInfNan, ci, cn);
    LeadRangeAgrees(data, start, s, positive, allowInfNan, ci, n, end);
  }

  /** `RangeAgreesWithParse` past the optional sign, from the first digit at `s`. */
  lemma LeadRangeAgrees(data: seq<byte>, start: nat, s: nat, positive: bool, allowInfNan: bool,
                        ci: (seq<byte>, nat) -> JsonResult<nat>, n: i64, end: nat)
    requires start <= s <= start + 1 && s < |data|
    requires LeadSpec(data, s, data[s], positive) == Ok((IntParse.Int(NumberInt.Int(n)), end))
    ensures LeadRangeSpec(data, start, s, positive, allowInfNan, ci) == Ok((NumberRange(start, end, true), end))
  {
    if data[s] != ZERO {
      DigitsAgree(data, start, s + 1, data[s], positive);
    }
  }

  /** After a leading 1-9, the two scanners agree: an integer of at most 18 more digits, or 18 more digits or a float. */
  lemma DigitsAgree(data: seq<byte>, start: nat, next: nat, d: byte, positive: bool)
    requires start < next <= start + 2 && 0x31 <= d <= 0x39
    ensures var p := DigitsSpec(data, next, d, positive);
      var q := IntRangeSpec(data, start, next);
      var end := next + |DigitRun(data, next)|;
      (p.Ok? && p.value.0.Int? ==> q == Ok((NumberRange(start, p.value.1, true), p.value.1))) &&
      (q.Ok? && q.value.0.isInt && |DigitRun(data, next)| < 18 ==> p.Ok? && p.value.0.Int? && p.value.1 == end) &&
      (q.Ok? && q.value.0.isInt && |DigitRun(data, next)| >= 18 ==> p == Fail(NumberOutOfRange, next))
  {
  }

  /**
   * Conversely, an integer range of at most 18 digits is an integer
   * `IntParse::parse` accepts with the same extent; a longer one (which
   * `NumberRange::decode` takes up to 4300 bytes) is out of range for it.
   */
  lemma ParseAgreesWithRange(data: seq<byte>, start: nat, end: nat, allowInfNan: bool,
                             ci: (seq<byte>, nat) -> JsonResult<nat>, cn: (seq<byte>, nat) -> JsonResult<nat>)
    requires start < |data| && data[start] != LETTER_N
    requires RangeSpec(data, start, data[start], allowInfNan, ci, cn) == Ok((NumberRange(start, end, true), end))
    ensures var p := ParseSpec(data, start, data[start]);
      var digits := if data[start] == MINUS then end - start - 1 else end - start;
      (digits <= 18 ==> p.Ok? && p.value.0.Int? && p.value.1 == end) &&
      (digits > 18 ==> p == Fail(NumberOutOfRange, end - digits + 1))
  {
    var s := if data[start] != MINUS then start else start + 1;
    RangeLeads(data, start, allowInfNan, ci, cn);
    ParseLeads(data, start);
    LeadAgrees(data, start, s, data[start] != MINUS, allowInfNan, ci, end);
  }

  /** `ParseAgreesWithRange` past the optional sign, from the first digit at `s`. */
  lemma LeadAgrees(data: seq<byte>, start: nat, s: nat, positive: bool, allowInfNan: bool,
                   ci: (seq<byte>, nat) -> JsonResult<nat>, end: nat)
    requires start <= s <= start + 1 && s < |data|
    requires LeadRangeSpec(data, start, s, positive, allowInfNan, ci) == Ok((NumberRange(start, end, true), end))
    ensures var p := LeadSpec(data, s, data[s], positive);
      (end - s <= 18 ==> p.Ok? && p.value.0.Int? && p.value.1 == end) &&
      (end - s > 18 ==> p == Fail(NumberOutOfRange, s + 1))
  {
    if data[s] != ZERO {
      DigitsAgree(data, start, s + 1, data[s], positive);
    } else {
      assert LeadRangeSpec(data, start, s, positive, allowInfNan, ci) == ZeroRangeSpec(data, start, s + 1);
      ZeroAgrees(data, start, s + 1);
    }
  }

  /** After a leading `0`, an integer range is the integer 0 for `IntParse::parse` too. */
  lemma ZeroAgrees(data: seq<byte>, start: nat, next: nat)
    requires ZeroRangeSpec(data, start, next).Ok? && ZeroRangeSpec(data, start, next).value.0.isInt
    ensures ZeroRangeSpec(data, start, next).value.1 == next
    ensures ZeroSpec(data, next) == Ok((IntParse.Int(NumberInt.Int(0)), next))
  {
  }
}

/**
 * The number scanner of merde_json's `jiter_lite`: the number grammar of
 * RFC 8259, section 6 (an optional `-`, then `0` or a non-zero digit and
 * more digits, then an optional fraction, then an optional exponent), read
 * from a byte slice at a cursor.
 *
 * `IntParse::parse` reads integers of at most 18 digits and only classifies
 * everything else; `NumberRange::decode` finds where a number ends and
 * whether it is an integer. Each scanning method is proved equal to a
 * specification function written with `DigitRun` (the run of digits at an
 * index) in place of the loops, and the lemmas relate those functions to
 * the grammar, to each other and to decimal formatting.
 */
module NumberDecoder {
  import opened Wrappers
  import opened MachineInts
  import opened Decimal

  const DOT: byte := 0x2E
  const PLUS: byte := 0x2B
  const LOWER_E: byte := 0x65
  const UPPER_E: byte := 0x45
  const LETTER_N: byte := 0x4E
  const LETTER_I: byte := 0x49
  const U64_MODULUS: nat := 0x1_0000_0000_0000_0000

  /** The error kinds the scanner reports; jiter_lite's errors module is not part of this model beyond them. */
  datatype JsonErrorType =
    | InvalidNumber
    | EofWhileParsingValue
    | NumberOutOfRange
    | FloatExpectingInt
    | ExpectedSomeValue

  datatype JsonError = JsonError(errorType: JsonErrorType, index: nat)

  function Fail<T>(kind: JsonErrorType, index: nat): Result<T, JsonError>
  {
    Err(JsonError(kind, index))
  }

  // ----- INT_CHAR_MAP -----

  const NO_DIGITS: seq<bool> :=
    [false, false, false, false, false, false, false, false, false, false, false, false, false, false, false, false]
  const DIGITS_ROW: seq<bool> :=
    [true, true, true, true, true, true, true, true, true, true, false, false, false, false, false, false]

  /** The 256-entry table as its 16 rows of 16, indexed by high nibble; only row 3 has entries set. */
  const INT_CHAR_ROWS: seq<seq<bool>> := [
    NO_DIGITS, NO_DIGITS, NO_DIGITS, DIGITS_ROW, NO_DIGITS, NO_DIGITS, NO_DIGITS, NO_DIGITS,
    NO_DIGITS, NO_DIGITS, NO_DIGITS, NO_DIGITS, NO_DIGITS, NO_DIGITS, NO_DIGITS, NO_DIGITS]

  const INT_CHAR_MAP: seq<bool> := seq(256, i requires 0 <= i < 256 => INT_CHAR_ROWS[i / 16][i % 16])

  lemma RowOf(hi: nat)
    requires hi < 16
    ensures INT_CHAR_ROWS[hi] == if hi == 3 then DIGITS_ROW else NO_DIGITS
  {
  }

  /** The table marks exactly the ASCII digits. */
  lemma IntCharMapIsDigit(b: byte)
    ensures |INT_CHAR_MAP| == 256
    ensures INT_CHAR_MAP[b] <==> IsDigit(b)
  {
    RowOf(b / 16);
    assert INT_CHAR_MAP[b] == INT_CHAR_ROWS[b / 16][b % 16];
  }

  // ----- positions in the input -----

  predicate DigitAt(data: seq<byte>, i: nat)
  {
    i < |data| && IsDigit(data[i])
  }

  predicate ExponentAt(data: seq<byte>, i: nat)
  {
    i < |data| && (data[i] == LOWER_E || data[i] == UPPER_E)
  }

  /** `.`, `e` or `E`: what turns an integer into a float. */
  predicate FloatMarkAt(data: seq<byte>, i: nat)
  {
    ExponentAt(data, i) || (i < |data| && data[i] == DOT)
  }

  /** The maximal run of digits starting at index `i` (empty past the end). */
  function DigitRun(data: seq<byte>, i: nat): (run: seq<byte>)
    ensures AllDigits(run)
    ensures run != [] ==> i + |run| <= |data| && run == data[i..i + |run|]
    ensures !DigitAt(data, i + |run|)
    decreases |data| - i
  {
    if DigitAt(data, i) then [data[i]] + DigitRun(data, i + 1) else []
  }

  /** Skipping `t` digits of a run leaves the rest of the same run. */
  lemma {:induction false} DigitRunSkip(data: seq<byte>, i: nat, t: nat)
    requires t <= |DigitRun(data, i)|
    ensures DigitRun(data, i)[t..] == DigitRun(data, i + t)
    decreases t
  {
    if t > 0 {
      DigitRunSkip(data, i + 1, t - 1);
    }
  }

  /** The element of the run at offset `t` is the input byte there. */
  lemma DigitRunAt(data: seq<byte>, i: nat, t: nat)
    requires t < |DigitRun(data, i)|
    ensures i + t < |data| && DigitRun(data, i)[t] == data[i + t]
  {
  }

  // ----- decode_int_chunk_fallback -----

  /** `value.wrapping_mul(10).wrapping_add((digit & 0x0f) as u64)` over a run of digits. */
  function Accumulate(value: u64, digits: seq<byte>): u64
  {
    if digits == [] then value
    else (Accumulate(value, digits[..|digits| - 1]) * 10 % U64_MODULUS + digits[|digits| - 1] % 16) % U64_MODULUS
  }

  /**
   * While the digits read so far number at most 19, the wrapping arithmetic
   * never wraps: accumulating more digits onto the value of `lead` gives the
   * value of the whole digit string.
   */
  lemma {:induction false} AccumulateExact(lead: seq<byte>, digits: seq<byte>)
    requires AllDigits(lead) && AllDigits(digits) && |lead| + |digits| <= 19
    ensures Value(lead) < U64_MODULUS
    ensures Accumulate(Value(lead), digits) == Value(lead + digits)
  {
    ValueFits(lead);
    if digits == [] {
      assert lead + digits == lead;
    } else {
      var front := digits[..|digits| - 1];
      var last := digits[|digits| - 1];
      AccumulateExact(lead, front);
      ValueAppend(lead, front);
      Bound18(lead + front);
      assert lead + digits == (lead + front) + [last];
      ValueLast(lead + front, last);
      WrapStep(Value(lead + front), last);
    }
  }

  /** Appending one digit. */
  lemma ValueLast(s: seq<byte>, last: byte)
    requires AllDigits(s) && IsDigit(last)
    ensures AllDigits(s + [last])
    ensures Value(s + [last]) == 10 * Value(s) + (last - ZERO) as nat
  {
    assert (s + [last])[..|s|] == s;
  }

  /** 19 digits stay below 2^64. */
  lemma ValueFits(digits: seq<byte>)
    requires AllDigits(digits) && |digits| <= 19
    ensures Value(digits) < 10_000_000_000_000_000_000 < U64_MODULUS
  {
    PowMonotone(|digits|, 19);
    Pow10Of18();
  }

  /** One wrapping step on a value that does not overflow. */
  lemma WrapStep(before: nat, last: byte)
    requires IsDigit(last) && before < 1_000_000_000_000_000_000
    ensures (before * 10 % U64_MODULUS + last % 16) % U64_MODULUS == 10 * before + (last - ZERO)
  {
    assert before * 10 % U64_MODULUS == before * 10;
  }

  /** One more digit of the run, as the loop body computes it. */
  lemma ChunkStep(data: seq<byte>, start: nat, t: nat, value0: u64)
    requires t < |DigitRun(data, start)|
    ensures var run := DigitRun(data, start);
      start + t < |data| && run[t] == data[start + t] &&
      Accumulate(value0, run[..t + 1]) == (Accumulate(value0, run[..t]) * 10 % U64_MODULUS + data[start + t] % 16) % U64_MODULUS
  {
    var run := DigitRun(data, start);
    assert run[..t + 1][..t] == run[..t];
  }

  /** Offset `t` of the input is a digit exactly while the run lasts. */
  lemma RunEnds(data: seq<byte>, start: nat, t: nat)
    requires t <= |DigitRun(data, start)|
    ensures DigitAt(data, start + t) <==> t < |DigitRun(data, start)|
    ensures t == |DigitRun(data, start)| ==> DigitRun(data, start)[..t] == DigitRun(data, start)
  {
    DigitRunSkip(data, start, t);
  }

  datatype IntChunk = Ongoing(value: u64) | Done(value: u64) | Float

  /**
   * `decode_int_chunk_fallback(data, index, value)`: reads at most 18
   * digits. After 18 it is `Ongoing`; stopping earlier at `.`, `e` or `E`
   * it is `Float`; stopping at anything else (or the end) it is `Done`. The
   * index has moved past exactly the digits read.
   */
  method DecodeIntChunkFallback(data: seq<byte>, start: nat, value0: u64) returns (chunk: IntChunk, index: nat)
    ensures var run := DigitRun(data, start);
      var k := if |run| < 18 then |run| else 18;
      index == start + k &&
      chunk == (if k == 18 then Ongoing(Accumulate(value0, run[..18]))
                else if FloatMarkAt(data, index) then IntChunk.Float
                else Done(Accumulate(value0, run)))
  {
    ghost var run := DigitRun(data, start);
    index := start;
    var value := value0;
    for t := 0 to 18
      invariant index == start + t && t <= |run|
      invariant value == Accumulate(value0, run[..t])
    {
      RunEnds(data, start, t);
      if index < |data| {
        var digit := data[index];
        IntCharMapIsDigit(digit);
        if INT_CHAR_MAP[digit] {
          ChunkStep(data, start, t, value0);
          value := (value * 10 % U64_MODULUS + digit % 16) % U64_MODULUS;
          index := index + 1;
          continue;
        } else if digit == DOT || digit == LOWER_E || digit == UPPER_E {
          return IntChunk.Float, index;
        }
      }
      return Done(value), index;
    }
    return Ongoing(value), index;
  }

  // ----- IntParse::parse -----

  datatype NumberInt = Int(value: i64)

  datatype IntParse = Int(num: NumberInt) | Float | FloatInf(positive: bool) | FloatNaN

  /**
   * What `IntParse::parse(data, index, first)` returns, where `first` is the
   * byte at `index`: `N` is NaN and `I` (after an optional `-`) infinity,
   * both left to the caller; otherwise the number's first digit decides.
   */
  function ParseSpec(data: seq<byte>, index: nat, first: byte): JsonResult<(IntParse, nat)>
  {
    if first == LETTER_N then Ok((FloatNaN, index))
    else if first != MINUS then LeadSpec(data, index, first, true)
    else if index + 1 < |data| then LeadSpec(data, index + 1, data[index + 1], false)
    else Fail(EofWhileParsingValue, index + 1)
  }

  /** The first byte after the sign, `d` at index `s`, decides. */
  function LeadSpec(data: seq<byte>, s: nat, d: byte, positive: bool): JsonResult<(IntParse, nat)>
  {
    if d == ZERO then ZeroSpec(data, s + 1)
    else if d == LETTER_I then Ok((FloatInf(positive), s))
    else if 0x31 <= d <= 0x39 then DigitsSpec(data, s + 1, d, positive)
    else Fail(InvalidNumber, s)
  }

  /** After a leading `0` (ending at `next`): a float mark makes a float, a digit is invalid, anything else ends the integer 0. */
  function ZeroSpec(data: seq<byte>, next: nat): JsonResult<(IntParse, nat)>
  {
    if FloatMarkAt(data, next) then Ok((IntParse.Float, next))
    else if DigitAt(data, next) then Fail(InvalidNumber, next)
    else Ok((IntParse.Int(NumberInt.Int(0)), next))
  }

  /**
   * After a leading non-zero digit `d` (ending at `next`): the run of digits
   * that follows, which may not reach 18 more digits, is an integer with the
   * sign of the literal unless a float mark follows.
   */
  function DigitsSpec(data: seq<byte>, next: nat, d: byte, positive: bool): JsonResult<(IntParse, nat)>
    requires 0x31 <= d <= 0x39
  {
    var run := DigitRun(data, next);
    var end := next + |run|;
    if |run| >= 18 then Fail(NumberOutOfRange, next)
    else if FloatMarkAt(data, end) then Ok((IntParse.Float, end))
    else
      Bound18([d] + run);
      var magnitude: int := Value([d] + run);
      var signed: int := if positive then magnitude else -magnitude;
      Ok((IntParse.Int(NumberInt.Int(signed)), end))
  }

  type JsonResult<T> = Result<T, JsonError>

  lemma PowMonotone(m: nat, n: nat)
    requires m <= n
    ensures Pow10(m) <= Pow10(n)
    decreases n
  {
    if m < n {
      PowMonotone(m, n - 1);
    }
  }

  lemma Pow10Of18()
    ensures Pow10(18) == 1_000_000_000_000_000_000
  {
    assert Pow10(4) == 10_000;
    assert Pow10(8) == 100_000_000;
    assert Pow10(12) == 1_000_000_000_000;
    assert Pow10(16) == 10_000_000_000_000_000;
  }

  /** At most 18 digits stay below 10^18, well inside `i64`. */
  lemma Bound18(digits: seq<byte>)
    requires AllDigits(digits) && |digits| <= 18
    ensures Value(digits) < 1_000_000_000_000_000_000
  {
    PowMonotone(|digits|, 18);
    Pow10Of18();
  }

  /** `IntParse::parse`. */
  method Parse(data: seq<byte>, index0: nat, first: byte) returns (r: JsonResult<(IntParse, nat)>)
    ensures r == ParseSpec(data, index0, first)
  {
    var index := index0;
    if first == LETTER_N {
      return Ok((FloatNaN, index));
    }
    var positive := first != MINUS;
    if !positive {
      index := index + 1;
    }
    var first2: Option<byte> := if positive then Some(first) else if index < |data| then Some(data[index]) else None;
    if first2.None? {
      return Fail(EofWhileParsingValue, index);
    }
    var digit := first2.value;
    if digit == ZERO {
      index := index + 1;
      if index < |data| && (data[index] == DOT || data[index] == LOWER_E || data[index] == UPPER_E) {
        return Ok((IntParse.Float, index));
      } else if index < |data| && IsDigit(data[index]) {
        return Fail(InvalidNumber, index);
      }
      return Ok((IntParse.Int(NumberInt.Int(0)), index));
    } else if digit == LETTER_I {
      return Ok((FloatInf(positive), index));
    } else if !(0x31 <= digit <= 0x39) {
      return Fail(InvalidNumber, index);
    }
    index := index + 1;
    r := ParseDigits(data, index, digit, positive);
  }

  /** The rest of `IntParse::parse` after a non-zero first digit: one chunk of at most 18 digits. */
  method ParseDigits(data: seq<byte>, index: nat, digit: byte, positive: bool) returns (r: JsonResult<(IntParse, nat)>)
    requires 0x31 <= digit <= 0x39
    ensures r == DigitsSpec(data, index, digit, positive)
  {
    var firstValue: u64 := digit % 16;
    var chunk, newIndex := DecodeIntChunkFallback(data, index, firstValue);
    match chunk {
      case Ongoing(_) =>
      case Done(value) =>
        DoneValue(digit, DigitRun(data, index));
        var valueI64: i64 := value;
        if !positive {
          valueI64 := -valueI64;
        }
        return Ok((IntParse.Int(NumberInt.Int(valueI64)), newIndex));
      case Float =>
        return Ok((IntParse.Float, newIndex));
    }
    return Fail(NumberOutOfRange, index);
  }

  /** The chunk after a leading digit `d` accumulates exactly the decimal value of `d` and the run. */
  lemma DoneValue(d: byte, run: seq<byte>)
    requires 0x31 <= d <= 0x39 && AllDigits(run) && |run| < 18
    ensures Accumulate(d % 16, run) == Value([d] + run) < 1_000_000_000_000_000_000
  {
    assert [d][..0] == [];
    assert Value([d]) == d % 16;
    AccumulateExact([d], run);
    Bound18([d] + run);
  }

  // ----- NumberInt -----

  /** `NumberInt::try_from(&[u8])`: the whole slice must be one integer literal. */
  method TryFrom(value: seq<byte>) returns (r: JsonResult<NumberInt>)
    ensures value == [] ==> r == Fail(InvalidNumber, 0)
    ensures r.Ok? ==> value != [] && ParseSpec(value, 0, value[0]) == Ok((IntParse.Int(r.value), |value|))
    ensures value != [] ==> var p := ParseSpec(value, 0, value[0]);
      (p.Err? ==> r == Err(p.error)) &&
      (p.Ok? && p.value.0.Int? && p.value.1 == |value| ==> r.Ok?) &&
      (p.Ok? && r.Err? ==> r == Fail(InvalidNumber, p.value.1))
  {
    if value == [] {
      return Fail(InvalidNumber, 0);
    }
    var parsed := Parse(value, 0, value[0]);
    if parsed.Err? {
      return Err(parsed.error);
    }
    var (intParse, index) := parsed.value;
    if intParse.Int? && index == |value| {
      return Ok(intParse.num);
    }
    return Fail(InvalidNumber, index);
  }

  /** `<NumberInt as AbstractNumberDecoder>::decode`: anything but an integer is `FloatExpectingInt`. */
  method DecodeNumberInt(data: seq<byte>, index: nat, first: byte) returns (r: JsonResult<(NumberInt, nat)>)
    ensures var p := ParseSpec(data, index, first);
      (p.Err? ==> r == Err(p.error)) &&
      (p.Ok? && p.value.0.Int? ==> r == Ok((p.value.0.num, p.value.1))) &&
      (p.Ok? && !p.value.0.Int? ==> r == Fail(FloatExpectingInt, p.value.1))
  {
    var parsed := Parse(data, index, first);
    if parsed.Err? {
      return Err(parsed.error);
    }
    var (intParse, end) := parsed.value;
    if intParse.Int? {
      return Ok((intParse.num, end));
    }
    return Fail(FloatExpectingInt, end);
  }

  // ----- consume_inf / consume_nan -----

  /**
   * `consume_inf`: with `allow_inf_nan` off, `Infinity` is refused (as a
   * missing value when positive, an invalid number after `-`); with it on,
   * the scan is jiter's `consume_infinity`, which is not part of this model
   * and is passed in.
   */
  function ConsumeInf(data: seq<byte>, index: nat, positive: bool, allowInfNan: bool,
                      consumeInfinity: (seq<byte>, nat) -> JsonResult<nat>): (r: JsonResult<nat>)
    ensures !allowInfNan ==> r == Fail(if positive then ExpectedSomeValue else InvalidNumber, index)
  {
    if allowInfNan then consumeInfinity(data, index)
    else if positive then Fail(ExpectedSomeValue, index)
    else Fail(InvalidNumber, index)
  }

  /** `consume_nan`: refused with `allow_inf_nan` off, otherwise jiter's own scan, passed in. */
  function ConsumeNan(data: seq<byte>, index: nat, allowInfNan: bool,
                      consumeNan: (seq<byte>, nat) -> JsonResult<nat>): (r: JsonResult<nat>)
    ensures !allowInfNan ==> r == Fail(ExpectedSomeValue, index)
  {
    if allowInfNan then consumeNan(data, index) else Fail(ExpectedSomeValue, index)
  }

  // ----- consume_decimal / consume_exponential -----

  /** At least one digit at `i`: the index after the whole run. */
  function DigitsEnd(data: seq<byte>, i: nat): (r: JsonResult<nat>)
    ensures r.Ok? ==> r.value == i + |DigitRun(data, i)| && r.value > i
  {
    if i >= |data| then Fail(EofWhileParsingValue, i)
    else if !IsDigit(data[i]) then Fail(InvalidNumber, i)
    else Ok(i + |DigitRun(data, i)|)
  }

  /** Where `consume_exponential(data, i)` stops: an optional sign, then one digit or more. */
  function ExponentialEnd(data: seq<byte>, i: nat): JsonResult<nat>
  {
    if i >= |data| then Fail(EofWhileParsingValue, i)
    else if data[i] == MINUS || data[i] == PLUS then DigitsEnd(data, i + 1)
    else if IsDigit(data[i]) then DigitsEnd(data, i)
    else Fail(InvalidNumber, i)
  }

  /** Where `consume_decimal(data, i)` stops: one digit or more, then an optional exponent. */
  function DecimalEnd(data: seq<byte>, i: nat): JsonResult<nat>
  {
    match DigitsEnd(data, i)
    case Err(e) => Err(e)
    case Ok(k) => if ExponentAt(data, k) then ExponentialEnd(data, k + 1) else Ok(k)
  }

  /** `consume_exponential`. */
  method ConsumeExponential(data: seq<byte>, index0: nat) returns (r: JsonResult<nat>)
    ensures r == ExponentialEnd(data, index0)
  {
    var index := index0;
    if index >= |data| {
      return Fail(EofWhileParsingValue, index);
    }
    if data[index] == MINUS || data[index] == PLUS {
      index := index + 1;
    } else if !IsDigit(data[index]) {
      return Fail(InvalidNumber, index);
    }
    if index >= |data| {
      return Fail(EofWhileParsingValue, index);
    } else if !IsDigit(data[index]) {
      return Fail(InvalidNumber, index);
    }
    ghost var from := index;
    index := index + 1;
    index := SkipDigits(data, index);
    return Ok(index);
  }

  /** The `while let` loop over digits shared by both consumers. */
  method SkipDigits(data: seq<byte>, index0: nat) returns (index: nat)
    ensures index == index0 + |DigitRun(data, index0)|
  {
    index := index0;
    while index < |data| && IsDigit(data[index])
      invariant index0 <= index && |DigitRun(data, index0)| == index - index0 + |DigitRun(data, index)|
      decreases |data| - index
    {
      index := index + 1;
    }
  }

  /** `consume_decimal`. */
  method ConsumeDecimal(data: seq<byte>, index0: nat) returns (r: JsonResult<nat>)
    ensures r == DecimalEnd(data, index0)
  {
    var index := index0;
    if index >= |data| {
      return Fail(EofWhileParsingValue, index);
    } else if !IsDigit(data[index]) {
      return Fail(InvalidNumber, index);
    }
    index := index + 1;
    while index < |data|
      invariant index0 < index && |DigitRun(data, index0)| == index - index0 + |DigitRun(data, index)|
      decreases |data| - index
    {
      var next := data[index];
      if IsDigit(next) {
        index := index + 1;
      } else if next == LOWER_E || next == UPPER_E {
        DecimalStop(data, index0, index);
        index := index + 1;
        r := ConsumeExponential(data, index);
        return;
      } else {
        break;
      }
    }
    DecimalStop(data, index0, index);
    return Ok(index);
  }

  /** Where the digits of a fraction stop, an exponent may follow. */
  lemma DecimalStop(data: seq<byte>, index0: nat, index: nat)
    requires index0 < index && |DigitRun(data, index0)| == index - index0 + |DigitRun(data, index)| && !DigitAt(data, index)
    ensures DecimalEnd(data, index0) == if ExponentAt(data, index) then ExponentialEnd(data, index + 1) else Ok(index)
  {
    assert DigitRun(data, index) == [];
    assert DigitAt(data, index0);
    assert DigitsEnd(data, index0) == Ok(index);
  }

  // ----- NumberRange::decode -----

  datatype NumberRange = NumberRange(start: nat, end: nat, isInt: bool)

  /** A float range from `start` to where the scan of the rest ended. */
  function FloatTo(start: nat, scanned: JsonResult<nat>): JsonResult<(NumberRange, nat)>
  {
    match scanned
    case Err(e) => Err(e)
    case Ok(end) => Ok((NumberRange(start, end, false), end))
  }

  /**
   * What `NumberRange::decode(data, start, first, allow_inf_nan)` returns:
   * the extent of the number and whether it is an integer. An integer part
   * longer than 4300 bytes from `start` is out of range.
   */
  function RangeSpec(data: seq<byte>, start: nat, first: byte, allowInfNan: bool,
                     consumeInfinity: (seq<byte>, nat) -> JsonResult<nat>,
                     consumeNan: (seq<byte>, nat) -> JsonResult<nat>): JsonResult<(NumberRange, nat)>
  {
    if first == LETTER_N then FloatTo(start, ConsumeNan(data, start, allowInfNan, consumeNan))
    else
      var positive := first != MINUS;
      var s := if positive then start else start + 1;
      if s >= |data| then Fail(EofWhileParsingValue, s)
      else LeadRangeSpec(data, start, s, positive, allowInfNan, consumeInfinity)
  }

  /** The first byte after the sign, at index `s`, decides. */
  function LeadRangeSpec(data: seq<byte>, start: nat, s: nat, positive: bool, allowInfNan: bool,
                         consumeInfinity: (seq<byte>, nat) -> JsonResult<nat>): JsonResult<(NumberRange, nat)>
    requires s < |data|
  {
    if data[s] == ZERO then ZeroRangeSpec(data, start, s + 1)
    else if data[s] == LETTER_I then FloatTo(start, ConsumeInf(data, s, positive, allowInfNan, consumeInfinity))
    else if 0x31 <= data[s] <= 0x39 then IntRangeSpec(data, start, s + 1)
    else Fail(InvalidNumber, s)
  }

  /** After a leading `0` ending at `next`: a fraction, an exponent, an invalid digit, or the integer 0. */
  function ZeroRangeSpec(data: seq<byte>, start: nat, next: nat): JsonResult<(NumberRange, nat)>
  {
    if next < |data| && data[next] == DOT then FloatTo(start, DecimalEnd(data, next + 1))
    else if ExponentAt(data, next) then FloatTo(start, ExponentialEnd(data, next + 1))
    else if DigitAt(data, next) then Fail(InvalidNumber, next)
    else Ok((NumberRange(start, next, true), next))
  }

  /**
   * A number whose first digit is 1-9 and whose remaining integer digits
   * start at `from`: the integer part may reach at most 4300 bytes past
   * `start`; a fraction or an exponent may follow it.
   */
  function IntRangeSpec(data: seq<byte>, start: nat, from: nat): JsonResult<(NumberRange, nat)>
  {
    var end := from + |DigitRun(data, from)|;
    if end - start > 4300 then Fail(NumberOutOfRange, start + 4301)
    else AfterDigitsSpec(data, start, end)
  }

  /** The part after the integer digits: a fraction, an exponent, or the end of the number. */
  function AfterDigitsSpec(data: seq<byte>, start: nat, end: nat): JsonResult<(NumberRange, nat)>
  {
    if end < |data| && data[end] == DOT then FloatTo(start, DecimalEnd(data, end + 1))
    else if ExponentAt(data, end) then FloatTo(start, ExponentialEnd(data, end + 1))
    else Ok((NumberRange(start, end, true), end))
  }

  method AfterDigits(data: seq<byte>, start: nat, end: nat) returns (r: JsonResult<(NumberRange, nat)>)
    ensures r == AfterDigitsSpec(data, start, end)
  {
    if end < |data| && data[end] == DOT {
      var scanned := ConsumeDecimal(data, end + 1);
      return FloatTo(start, scanned);
    } else if ExponentAt(data, end) {
      var scanned := ConsumeExponential(data, end + 1);
      return FloatTo(start, scanned);
    }
    return Ok((NumberRange(start, end, true), end));
  }

  /**
   * The integer digits after the first: up to 18 are read one at a time,
   * and the rest in chunks.
   */
  method ScanIntDigits(data: seq<byte>, start: nat, from: nat) returns (r: JsonResult<(NumberRange, nat)>)
    requires start < from <= start + 2
    ensures r == IntRangeSpec(data, start, from)
  {
    var index := from;
    ghost var run := DigitRun(data, from);
    for t := 0 to 18
      invariant index == from + t && t <= |run|
    {
      if index < |data| {
        var digit := data[index];
        IntCharMapIsDigit(digit);
        if INT_CHAR_MAP[digit] {
          DigitRunSkip(data, from, t);
          index := index + 1;
          continue;
        } else if digit == DOT || digit == LOWER_E || digit == UPPER_E {
          DigitRunSkip(data, from, t);
          r := AfterDigits(data, start, index);
          return;
        }
      }
      DigitRunSkip(data, from, t);
      return Ok((NumberRange(start, index, true), index));
    }
    r := ScanChunks(data, start, from, index);
  }

  /** The `loop` over `IntChunk::parse_big` once 18 digits have been read. */
  method ScanChunks(data: seq<byte>, start: nat, from: nat, index0: nat) returns (r: JsonResult<(NumberRange, nat)>)
    requires start < from <= start + 2 && index0 == from + 18 <= from + |DigitRun(data, from)|
    ensures r == IntRangeSpec(data, start, from)
  {
    ghost var run := DigitRun(data, from);
    var index := index0;
    while true
      invariant from <= index <= from + |run|
      invariant index - start <= 4300 || index == from + 18
      decreases |data| - index
    {
      var chunk, newIndex := DecodeIntChunkFallback(data, index, 0);
      ChunkOutcome(data, start, from, index, chunk, newIndex);
      if newIndex - start > 4300 {
        return Fail(NumberOutOfRange, start + 4301);
      }
      match chunk {
        case Ongoing(_) =>
          index := newIndex;
        case Done(_) =>
          return Ok((NumberRange(start, newIndex, true), newIndex));
        case Float =>
          r := AfterDigits(data, start, newIndex);
          return;
      }
    }
  }

  /** What one chunk read at `index`, inside the run starting at `from`, decides. */
  lemma ChunkOutcome(data: seq<byte>, start: nat, from: nat, index: nat, chunk: IntChunk, newIndex: nat)
    requires start < from <= index <= from + |DigitRun(data, from)|
    requires var run := DigitRun(data, index);
      var k := if |run| < 18 then |run| else 18;
      newIndex == index + k &&
      chunk == (if k == 18 then Ongoing(Accumulate(0, run[..18]))
                else if FloatMarkAt(data, newIndex) then IntChunk.Float
                else Done(Accumulate(0, run)))
    ensures newIndex <= from + |DigitRun(data, from)|
    ensures newIndex - start > 4300 ==> IntRangeSpec(data, start, from) == Fail(NumberOutOfRange, start + 4301)
    ensures newIndex - start <= 4300 ==>
      match chunk
      case Ongoing(_) => newIndex == index + 18
      case Done(_) => IntRangeSpec(data, start, from) == Ok((NumberRange(start, newIndex, true), newIndex))
      case Float => IntRangeSpec(data, start, from) == AfterDigitsSpec(data, start, newIndex)
  {
    DigitRunSkip(data, from, index - from);
    var end := from + |DigitRun(data, from)|;
    var k := |DigitRun(data, index)|;
    assert index + k == end;
    RunEnd(data, start, from, end);
    if k < 18 {
      assert newIndex == end;
      if FloatMarkAt(data, end) {
        assert chunk == IntChunk.Float;
      } else {
        assert chunk.Done?;
      }
    }
  }

  /** `IntRangeSpec` once the end of the run of digits is known. */
  lemma RunEnd(data: seq<byte>, start: nat, from: nat, end: nat)
    requires end == from + |DigitRun(data, from)|
    ensures IntRangeSpec(data, start, from) ==
      if end - start > 4300 then Fail(NumberOutOfRange, start + 4301) else AfterDigitsSpec(data, start, end)
    ensures !FloatMarkAt(data, end) ==> AfterDigitsSpec(data, start, end) == Ok((NumberRange(start, end, true), end))
  {
    var spec := IntRangeSpec(data, start, from);
    if end - start > 4300 {
      assert spec == Fail(NumberOutOfRange, start + 4301);
    } else {
      assert spec == AfterDigitsSpec(data, start, end);
    }
  }

  /** `NumberRange::decode`. */
  method DecodeRange(data: seq<byte>, start: nat, first: byte, allowInfNan: bool,
                     consumeInfinity: (seq<byte>, nat) -> JsonResult<nat>,
                     consumeNan: (seq<byte>, nat) -> JsonResult<nat>) returns (r: JsonResult<(NumberRange, nat)>)
    ensures r == RangeSpec(data, start, first, allowInfNan, consumeInfinity, consumeNan)
  {
    var index := start;
    if first == LETTER_N {
      return FloatTo(start, ConsumeNan(data, index, allowInfNan, consumeNan));
    }
    var positive := first != MINUS;
    if !positive {
      index := index + 1;
    }
    if index >= |data| {
      return Fail(EofWhileParsingValue, index);
    }
    if data[index] == ZERO {
      index := index + 1;
      if index < |data| && data[index] == DOT {
        var scanned := ConsumeDecimal(data, index + 1);
        return FloatTo(start, scanned);
      } else if ExponentAt(data, index) {
        var scanned := ConsumeExponential(data, index + 1);
        return FloatTo(start, scanned);
      } else if DigitAt(data, index) {
        return Fail(InvalidNumber, index);
      }
      return Ok((NumberRange(start, index, true), index));
    } else if data[index] == LETTER_I {
      return FloatTo(start, ConsumeInf(data, index, positive, allowInfNan, consumeInfinity));
    } else if !(0x31 <= data[index] <= 0x39) {
      return Fail(InvalidNumber, index);
    }
    r := ScanIntDigits(data, start, index + 1);
  }
}

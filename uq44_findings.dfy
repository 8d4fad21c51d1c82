/**
 * Two inputs on which `str2UQ44` does not do what its saturation and its overflow checks set out to
 * do, each shown on the code as written, beside a corrected encoder for which the intended
 * property is proved.
 *
 * 1. `result += ipart << 4` is 32-bit arithmetic: an integer part from 2^28 up shifts out of the
 *    word, and the saturation never sees it. "268435456" encodes as 0x00.
 * 2. The check `otemp < one` catches the wrap of `one * 10` only from the eleventh fraction digit
 *    on: 10^10 wraps to 1410065408, which is still above 10^9. The tenth digit is taken with a
 *    wrong denominator: "0.1000000000" encodes as 0x0B instead of 0x01.
 */
module Uq44Findings {

  import opened CTypes
  import opened Decimal
  import opened Uq44
  import opened Uq44Laws

  // ---------------------------------------------------------------------------------------------
  // The corrected encoder
  // ---------------------------------------------------------------------------------------------

  /** The synthesis as intended: the whole of `16 * ipart + frac`, saturated to 0xFF. */
  function SaturatingSynthesize(ipart: u32, frac: u32): byte {
    if 16 * ipart + frac > U8_MAX then U8_MAX else 16 * ipart + frac
  }

  /**
   * The fraction loop with the test on `one` made exact: it stops where `one * 10` would no longer
   * fit in 32 bits, so no more than nine digits are ever taken.
   */
  function ScanFracChecked(buf: seq<byte>, i: nat, fpart: u32, one: u32): (r: Fraction)
    decreases |buf| - i
  {
    if i >= |buf| || buf[i] == NEWLINE || buf[i] == NUL then Fraction(fpart, one)
    else
      var ftemp := ToU32(10 * fpart + DigitDelta(buf[i]));
      if ftemp < fpart || one * 10 >= U32_MOD then Fraction(fpart, one)
      else ScanFracChecked(buf, i + 1, ftemp, one * 10)
  }

  /** The rounds on the fraction the corrected loop scanned, then the saturating synthesis. */
  function CorrectedFinish(ipart: u32, fr: Fraction): byte {
    SaturatingSynthesize(ipart, Binarize(fr.numer, fr.denom, 4, 0))
  }

  /** What the corrected encoder returns once the integer loop stopped at `stop` holding `ipart`. */
  function CorrectedFraction(buf: seq<byte>, stop: nat, ipart: u32): byte {
    CorrectedFinish(ipart, ScanFracChecked(buf, stop + 1, 0, 1))
  }

  /** `str2UQ44` with both corrections: the same integer loop and rounds. */
  function EncodeCorrected(buf: seq<byte>): byte {
    match ScanInt(buf, 0, 0)
    case Saturated => U8_MAX
    case IntPart(stop, ipart) => CorrectedFraction(buf, stop, ipart)
  }

  /** The corrected encoder is the integer scan, the checked fraction scan and both rounds. */
  lemma CorrectedOf(buf: seq<byte>, stop: nat, ipart: u32, numer: u32, denom: u32)
    requires ScanInt(buf, 0, 0) == IntPart(stop, ipart)
    requires ScanFracChecked(buf, stop + 1, 0, 1) == Fraction(numer, denom)
    ensures EncodeCorrected(buf) == SaturatingSynthesize(ipart, Binarize(numer, denom, 4, 0))
  {
    assert EncodeCorrected(buf) == CorrectedFraction(buf, stop, ipart);
    assert CorrectedFraction(buf, stop, ipart) == CorrectedFinish(ipart, Fraction(numer, denom));
  }

  // ---------------------------------------------------------------------------------------------
  // Finding 1: the shift of the integer part wraps
  // ---------------------------------------------------------------------------------------------

  /** As written, "268435456" (2^28) shifts to 2^32, which wraps to 0: the text encodes as 0x00. */
  lemma ShiftWrapsToZero()
    ensures Encode(DecimalText(0x1000_0000)) == 0x00
  {
    WholeNumber(DecimalText(0x1000_0000));
  }

  /** Where nothing wraps, the saturating synthesis is the synthesis as written. */
  lemma SaturatingAgrees(ipart: u32, frac: u32)
    requires ipart < 0x1000_0000 && frac < 16
    ensures SaturatingSynthesize(ipart, frac) == Synthesize(ipart, frac)
  {
  }

  /**
   * Corrected, every integer part from 16 to 2^32 - 1 saturates, whatever fraction follows and
   * whether or not `ipart << 4` would wrap.
   */
  lemma CorrectedLargeSaturates(whole: seq<byte>, rest: seq<byte>)
    requires AllDigits(whole) && 16 <= Value(whole) < U32_MOD
    requires rest == [] || rest[0] == NEWLINE || rest[0] == DOT
    ensures EncodeCorrected(whole + rest) == U8_MAX
  {
    IntegerPart(whole, rest);
    var fr := ScanFracChecked(whole + rest, |whole| + 1, 0, 1);
    CorrectedOf(whole + rest, |whole|, Value(whole), fr.numer, fr.denom);
  }

  // ---------------------------------------------------------------------------------------------
  // Finding 2: the tenth fraction digit
  // ---------------------------------------------------------------------------------------------

  /** "0.1000000000": a '1' and nine '0's after the point. */
  const TEN_DIGITS: seq<byte> := [ZERO_CHAR, DOT, 0x31, ZERO_CHAR, ZERO_CHAR, ZERO_CHAR, ZERO_CHAR,
                                  ZERO_CHAR, ZERO_CHAR, ZERO_CHAR, ZERO_CHAR, ZERO_CHAR]

  /** The four rounds on 10^9 over the wrapped denominator 1410065408 shift in 1, 0, 1, 1. */
  lemma WrappedRounds()
    ensures Binarize(1_000_000_000, 1_410_065_408, 4, 0) == 0x0B
  {
    var one := 1_410_065_408;
    BinarizeRound(1_000_000_000, one, 4, 0, 589_934_592, 1);
    BinarizeRound(589_934_592, one, 3, 1, 1_179_869_184, 2);
    BinarizeRound(1_179_869_184, one, 2, 2, 949_672_960, 5);
    BinarizeRound(949_672_960, one, 1, 5, 489_280_512, 11);
  }

  /**
   * As written, the tenth digit of "0.1000000000" multiplies `one` to 10^10, which wraps to
   * 1410065408 without the check seeing it: the text encodes as 0x0B, not as the 0x01 of 0.1.
   */
  lemma TenthDigitWraps()
    ensures Encode(TEN_DIGITS) == 0x0B
  {
    var buf := TEN_DIGITS;
    assert ScanInt(buf, 0, 0) == ScanInt(buf, 1, 0) == IntPart(1, 0);
    TenDigitsFirstNine();
    TenDigitsLastOne();
    WrappedRounds();
    EncodeOf(buf, 1, 0, 1_000_000_000, 1_410_065_408);
  }

  /** The first nine fraction digits of "0.1000000000" are scanned exactly, to 10^8 over 10^9. */
  lemma TenDigitsFirstNine()
    ensures ScanFrac(TEN_DIGITS, 2, 0, 1) == ScanFrac(TEN_DIGITS, 11, 100_000_000, 1_000_000_000)
  {
    TenDigitsParts();
    var head := [ZERO_CHAR] + [DOT];
    var digits := [0x31] + Zeros(8);
    RunValueIsValue(head, digits, [ZERO_CHAR]);
    ScanFracPrefix(head + digits + [ZERO_CHAR], |head|, |digits|);
  }

  /** The tenth digit is taken: `one * 10` wraps to 1410065408, which the check lets through. */
  lemma TenDigitsLastOne()
    ensures ScanFrac(TEN_DIGITS, 11, 100_000_000, 1_000_000_000) == Fraction(1_000_000_000, 1_410_065_408)
  {
    var buf := TEN_DIGITS;
    assert ToU32(1_000_000_000 * 10) == 1_410_065_408;
    assert ScanFrac(buf, 11, 100_000_000, 1_000_000_000) == ScanFrac(buf, 12, 1_000_000_000, 1_410_065_408);
    ScanFracStops(buf, 12, 1_000_000_000, 1_410_065_408);
  }

  /** One digit whose products both fit carries the corrected loop one index on. */
  lemma CheckedStep(buf: seq<byte>, i: nat, fpart: u32, one: u32, numer: u32, denom: u32)
    requires i < |buf| && IsDigit(buf[i])
    requires numer == 10 * fpart + DigitDelta(buf[i]) && denom == 10 * one
    ensures ScanFracChecked(buf, i, fpart, one) == ScanFracChecked(buf, i + 1, numer, denom)
  {
  }

  /** The corrected loop stops at a terminator, and once `one` is 10^9, whatever the byte is. */
  lemma CheckedStops(buf: seq<byte>, i: nat, fpart: u32, one: u32)
    requires || i >= |buf| || buf[i] == NEWLINE || buf[i] == NUL
             || one == 1_000_000_000
    ensures ScanFracChecked(buf, i, fpart, one) == Fraction(fpart, one)
  {
  }

  /** The corrected loop's step over the last digit of a run, as RunStep is for the loop as written. */
  lemma CheckedRunStep(buf: seq<byte>, start: nat, len: nat)
    requires 0 < len <= 9 && start + len <= |buf| && DigitRun(buf, start, len)
    ensures 0 <= RunValue(buf, start, len - 1) < Pow10(len - 1) <= 100_000_000
    ensures 0 <= RunValue(buf, start, len) < Pow10(len) <= 1_000_000_000
    ensures ScanFracChecked(buf, start + (len - 1), RunValue(buf, start, len - 1), Pow10(len - 1))
         == ScanFracChecked(buf, start + len, RunValue(buf, start, len), Pow10(len))
  {
    RunBound(buf, start, len);
    RunBound(buf, start, len - 1);
    Pow10Mono(len, 9);
    Pow10Nine();
    assert IsDigit(buf[start + (len - 1)]);
    CheckedStep(buf, start + (len - 1), RunValue(buf, start, len - 1), Pow10(len - 1), RunValue(buf, start, len), Pow10(len));
  }

  /** Over a run of at most nine digits the corrected loop accumulates the run's exact value. */
  lemma {:induction false} CheckedPrefix(buf: seq<byte>, start: nat, len: nat)
    requires len <= 9 && start + len <= |buf| && DigitRun(buf, start, len)
    ensures 0 <= RunValue(buf, start, len) < Pow10(len) <= 1_000_000_000
    ensures ScanFracChecked(buf, start, 0, 1) == ScanFracChecked(buf, start + len, RunValue(buf, start, len), Pow10(len))
  {
    RunBound(buf, start, len);
    Pow10Mono(len, 9);
    Pow10Nine();
    if len == 0 {
      assert RunValue(buf, start, len) == 0 && Pow10(len) == 1 && start + len == start;
    } else {
      CheckedPrefix(buf, start, len - 1);
      CheckedRunStep(buf, start, len);
    }
  }

  /**
   * The corrected fraction loop takes the first nine digits at most: it ends on a terminator after
   * fewer, and after nine it ignores whatever follows.
   */
  lemma CheckedFractionPart(head: seq<byte>, digits: seq<byte>, rest: seq<byte>)
    requires AllDigits(digits) && |digits| <= 9
    requires |digits| == 9 || rest == [] || rest[0] == NEWLINE || rest[0] == NUL
    ensures Value(digits) < Pow10(|digits|) <= 1_000_000_000
    ensures ScanFracChecked(head + digits + rest, |head|, 0, 1) == Fraction(Value(digits), Pow10(|digits|))
  {
    Split3(head, digits, rest);
    RunValueIsValue(head, digits, rest);
    CheckedPrefix(head + digits + rest, |head|, |digits|);
    Pow10Nine();
    CheckedStops(head + digits + rest, |head| + |digits|, Value(digits), Pow10(|digits|));
  }

  /** Where the corrected loops stop on `"<I><sep><F><rest>"` and what they accumulate. */
  lemma CheckedScans(whole: seq<byte>, sep: byte, frac: seq<byte>, rest: seq<byte>)
    requires AllDigits(whole) && Value(whole) < 16
    requires sep == DOT || sep == NEWLINE
    requires AllDigits(frac) && |frac| <= 9
    requires |frac| == 9 || rest == [] || rest[0] == NEWLINE || rest[0] == NUL
    ensures Value(frac) < Pow10(|frac|) <= 1_000_000_000
    ensures ScanInt(whole + [sep] + frac + rest, 0, 0) == IntPart(|whole|, Value(whole))
    ensures ScanFracChecked(whole + [sep] + frac + rest, |whole| + 1, 0, 1) == Fraction(Value(frac), Pow10(|frac|))
  {
    Regroup(whole, sep, frac, rest);
    IntegerPart(whole, [sep] + frac + rest);
    CheckedFractionPart(whole + [sep], frac, rest);
  }

  /** For an integer part below 16 and a proper fraction the corrected synthesis truncates too. */
  lemma CorrectedRounds(ipart: u32, numer: u32, denom: u32)
    requires ipart < 16 && numer < denom <= 0x8000_0000
    ensures SaturatingSynthesize(ipart, Binarize(numer, denom, 4, 0)) == 16 * ipart + 16 * numer / denom
  {
    BinarizeTruncates(numer, denom);
    Pow2Values();
    BinarizeBound(numer, denom, 4, 0);
  }

  /**
   * Corrected, a decimal below 16 encodes as 16 times its integer part plus the truncated
   * sixteenths of its first nine fraction digits, however many digits follow them.
   */
  lemma CorrectedDecimalEncoding(whole: seq<byte>, sep: byte, frac: seq<byte>, rest: seq<byte>)
    requires AllDigits(whole) && Value(whole) < 16
    requires sep == DOT || sep == NEWLINE
    requires AllDigits(frac) && |frac| <= 9
    requires |frac| == 9 || rest == [] || rest[0] == NEWLINE || rest[0] == NUL
    ensures EncodeCorrected(whole + [sep] + frac + rest) == 16 * Value(whole) + 16 * Value(frac) / Pow10(|frac|)
  {
    CheckedScans(whole, sep, frac, rest);
    CorrectedRounds(Value(whole), Value(frac), Pow10(|frac|));
    CorrectedOf(whole + [sep] + frac + rest, |whole|, Value(whole), Value(frac), Pow10(|frac|));
  }

  /** "0.1000000000" is "0", the point, the nine digits of 10^8, and one more '0'. */
  lemma TenDigitsParts()
    ensures AllDigits([0x31] + Zeros(8)) && |[0x31] + Zeros(8)| == 9
    ensures Value([0x31] + Zeros(8)) == 100_000_000 && Pow10(9) == 1_000_000_000
    ensures AllDigits([ZERO_CHAR]) && Value([ZERO_CHAR]) == 0
    ensures [ZERO_CHAR] + [DOT] + ([0x31] + Zeros(8)) + [ZERO_CHAR] == TEN_DIGITS
  {
    ValueConcat([0x31], Zeros(8));
    ValueZeros(8);
    assert Value([0x31]) == 1;
    Pow10Mono(8, 9);
    Pow10Nine();
  }

  /** Corrected, "0.1000000000" encodes as 0x01, the truncated sixteenths of 0.1. */
  lemma CorrectedTenthDigit()
    ensures EncodeCorrected(TEN_DIGITS) == 0x01
  {
    TenDigitsParts();
    CorrectedDecimalEncoding([ZERO_CHAR], DOT, [0x31] + Zeros(8), [ZERO_CHAR]);
  }
}

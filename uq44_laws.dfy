/**
 * What `str2UQ44` computes, stated in decimal terms: the binary-fraction loop truncates, digit
 * strings encode to sixteen times their value (saturating above 15), the integer loop gives up for
 * good once its running value decreases, and the text `base_rate_show` prints encodes back to the
 * byte it was printed from.
 */
module Uq44Laws {

  import opened CTypes
  import opened Decimal
  import opened Uq44
  import opened Arith

  // ---------------------------------------------------------------------------------------------
  // Arithmetic helpers
  // ---------------------------------------------------------------------------------------------

  lemma {:induction false} Pow10Mono(j: nat, k: nat)
    requires j <= k
    ensures Pow10(j) <= Pow10(k)
    decreases k
  {
    if j < k {
      Pow10Mono(j, k - 1);
    }
  }

  lemma Pow10Nine()
    ensures Pow10(9) == 1_000_000_000
  {
  }

  // ---------------------------------------------------------------------------------------------
  // The binary-fraction loop truncates
  // ---------------------------------------------------------------------------------------------

  /** The quotient bookkeeping of one round: doubling before dividing is what shifts a bit in. */
  lemma FloorStep(result: int, p: int, fpart: int, one: int)
    requires p >= 1 && one > 0
    ensures 2 * fpart >= one ==>
      (2 * result + 1) * p + p * (2 * fpart - one) / one == result * (2 * p) + (2 * p) * fpart / one
    ensures (2 * result) * p + p * (2 * fpart) / one == result * (2 * p) + (2 * p) * fpart / one
  {
    assert (2 * result + 1) * p == result * (2 * p) + p;
    assert p * (2 * fpart - one) + p * one == (2 * p) * fpart;
    DivAddMultiple(p * (2 * fpart - one), p, one);
    assert p * (2 * fpart) == (2 * p) * fpart;
    assert (2 * result) * p == result * (2 * p);
  }

  /** One round of Binarize when neither doubling can wrap. */
  lemma BinarizeUnfold(fpart: u32, one: u32, rounds: nat, result: u32)
    requires 1 <= rounds && result < 16
    requires fpart < one <= 0x8000_0000
    ensures Binarize(fpart, one, rounds, result)
         == if 2 * fpart >= one then Binarize(2 * fpart - one, one, rounds - 1, 2 * result + 1)
            else Binarize(2 * fpart, one, rounds - 1, 2 * result)
  {
  }

  /** If the later rounds truncate, so does the round before them. */
  lemma FloorCombine(fpart: u32, one: u32, rounds: nat, result: u32, f: u32, r: u32)
    requires 1 <= rounds <= 4 && result < 16
    requires fpart < one <= 0x8000_0000
    requires f == if 2 * fpart >= one then 2 * fpart - one else 2 * fpart
    requires r == if 2 * fpart >= one then 2 * result + 1 else 2 * result
    requires Binarize(f, one, rounds - 1, r) == r * Pow2(rounds - 1) + Pow2(rounds - 1) * f / one
    ensures Binarize(fpart, one, rounds, result) == result * Pow2(rounds) + Pow2(rounds) * fpart / one
  {
    var p := Pow2(rounds - 1);
    assert Pow2(rounds) == 2 * p;
    BinarizeUnfold(fpart, one, rounds, result);
    FloorStep(result, p, fpart, one);
  }

  /**
   * With `fpart < one` and `one` at most 2^31 no doubling wraps, and the remaining rounds shift
   * `floor(2^rounds * fpart / one)` into `result`.
   */
  lemma {:induction false} BinarizeFloor(fpart: u32, one: u32, rounds: nat, result: u32)
    requires rounds <= 4 && result < Pow2(4 - rounds)
    requires fpart < one <= 0x8000_0000
    ensures Binarize(fpart, one, rounds, result) == result * Pow2(rounds) + Pow2(rounds) * fpart / one
    decreases rounds
  {
    if rounds == 0 {
      DivUnique(fpart, one, 0, fpart);
    } else {
      Pow2Values();
      assert Pow2(4 - (rounds - 1)) == 2 * Pow2(4 - rounds);
      var f: u32 := if 2 * fpart >= one then 2 * fpart - one else 2 * fpart;
      var r: u32 := if 2 * fpart >= one then 2 * result + 1 else 2 * result;
      BinarizeFloor(f, one, rounds - 1, r);
      FloorCombine(fpart, one, rounds, result, f, r);
    }
  }

  /** The four rounds leave `floor(16 * fpart / one)`: truncation, no rounding. */
  lemma BinarizeTruncates(fpart: u32, one: u32)
    requires fpart < one <= 0x8000_0000
    ensures Binarize(fpart, one, 4, 0) == 16 * fpart / one
  {
    Pow2Values();
    BinarizeFloor(fpart, one, 4, 0);
  }

  // ---------------------------------------------------------------------------------------------
  // Where the pieces of a concatenated buffer sit
  // ---------------------------------------------------------------------------------------------

  lemma Split2(a: seq<byte>, b: seq<byte>)
    ensures (a + b)[..|a|] == a && a[..|a|] == a && |a + b| == |a| + |b|
    ensures b != [] ==> (a + b)[|a|] == b[0]
  {
  }

  lemma Split3(a: seq<byte>, b: seq<byte>, c: seq<byte>)
    ensures (a + b + c)[|a|..|a| + |b|] == b && b[..|b|] == b && |a + b + c| == |a| + |b| + |c|
    ensures c != [] ==> (a + b + c)[|a| + |b|] == c[0]
  {
  }

  lemma Regroup(whole: seq<byte>, sep: byte, frac: seq<byte>, rest: seq<byte>)
    ensures whole + [sep] + frac + rest == whole + ([sep] + frac + rest)
    ensures |whole + [sep]| == |whole| + 1 && ([sep] + frac + rest)[0] == sep
  {
  }

  // ---------------------------------------------------------------------------------------------
  // The integer loop over a digit string
  // ---------------------------------------------------------------------------------------------

  /** The integer loop stops, keeping what it holds, at the buffer's end, a newline or a '.'. */
  lemma ScanIntEnds(buf: seq<byte>, i: nat, ipart: u32)
    requires i <= |buf| && (i == |buf| || buf[i] == NEWLINE || buf[i] == DOT)
    ensures ScanInt(buf, i, ipart) == IntPart(i, ipart)
  {
  }

  /** One digit that keeps the running value below 2^32 moves the integer loop on by one index. */
  lemma ScanIntStep(buf: seq<byte>, i: nat, ipart: u32, next: u32)
    requires i < |buf| && IsDigit(buf[i]) && next == 10 * ipart + DigitDelta(buf[i])
    ensures ScanInt(buf, i, ipart) == ScanInt(buf, i + 1, next)
  {
  }

  /**
   * While the digits read so far denote less than 2^32, the integer loop has accumulated exactly
   * their value.
   */
  lemma {:induction false} ScanIntPrefix(buf: seq<byte>, digits: seq<byte>, j: nat)
    requires AllDigits(digits) && |digits| <= |buf| && buf[..|digits|] == digits
    requires j <= |digits| && Value(digits[..j]) < U32_MOD
    ensures ScanInt(buf, 0, 0) == ScanInt(buf, j, Value(digits[..j]))
    decreases j
  {
    if j == 0 {
      assert digits[..j] == [];
    } else {
      var prev := digits[..j - 1];
      var c := digits[j - 1];
      assert digits[..j] == prev + [c];
      ValueSnoc(prev, c);
      assert buf[j - 1] == c;
      ScanIntPrefix(buf, digits, j - 1);
      ScanIntStep(buf, j - 1, Value(prev), Value(digits[..j]));
    }
  }

  /** A digit string below 2^32, ended by the buffer's end, a newline or a '.', reads as its value. */
  lemma IntegerPart(digits: seq<byte>, rest: seq<byte>)
    requires AllDigits(digits) && Value(digits) < U32_MOD
    requires rest == [] || rest[0] == NEWLINE || rest[0] == DOT
    ensures ScanInt(digits + rest, 0, 0) == IntPart(|digits|, Value(digits))
  {
    Split2(digits, rest);
    ScanIntPrefix(digits + rest, digits, |digits|);
    ScanIntEnds(digits + rest, |digits|, Value(digits));
  }

  /**
   * Once the running value decreases the conversion has returned: whatever follows in the buffer
   * is never looked at.
   */
  lemma {:induction false} SaturatedScanIgnoresRest(buf: seq<byte>, rest: seq<byte>, i: nat, ipart: u32)
    requires i <= |buf| && ScanInt(buf, i, ipart) == Saturated
    ensures ScanInt(buf + rest, i, ipart) == Saturated
    decreases |buf| - i
  {
    assert (buf + rest)[i] == buf[i];
    var itemp := ToU32(10 * ipart + DigitDelta(buf[i]));
    if itemp >= ipart {
      SaturatedScanIgnoresRest(buf, rest, i + 1, itemp);
    }
  }

  /** The early 0xFF return discards the rest of the buffer. */
  lemma SaturationDiscardsRest(buf: seq<byte>, rest: seq<byte>)
    requires ScanInt(buf, 0, 0) == Saturated
    ensures Encode(buf) == U8_MAX && Encode(buf + rest) == U8_MAX
  {
    SaturatedScanIgnoresRest(buf, rest, 0, 0);
  }

  // ---------------------------------------------------------------------------------------------
  // The fraction loop over a digit string
  // ---------------------------------------------------------------------------------------------

  /** One digit whose products both fit in 32 bits moves the fraction loop on by one index. */
  lemma ScanFracStep(buf: seq<byte>, i: nat, fpart: u32, one: u32, numer: u32, denom: u32)
    requires i < |buf| && IsDigit(buf[i])
    requires numer == 10 * fpart + DigitDelta(buf[i]) && denom == 10 * one
    ensures ScanFrac(buf, i, fpart, one) == ScanFrac(buf, i + 1, numer, denom)
  {
  }

  /** The `len` bytes from `start` are decimal digits. */
  predicate DigitRun(buf: seq<byte>, start: nat, len: nat)
    requires start + len <= |buf|
  {
    forall k :: start <= k < start + len ==> IsDigit(buf[k])
  }

  /** The value of the `len` bytes from `start`, read off the buffer index by index as the loops do. */
  function RunValue(buf: seq<byte>, start: nat, len: nat): int
    requires start + len <= |buf|
  {
    if len == 0 then 0 else 10 * RunValue(buf, start, len - 1) + DigitDelta(buf[start + (len - 1)])
  }

  /** A run of digits is worth less than ten to its length. */
  lemma {:induction false} RunBound(buf: seq<byte>, start: nat, len: nat)
    requires start + len <= |buf| && DigitRun(buf, start, len)
    ensures 0 <= RunValue(buf, start, len) < Pow10(len)
  {
    if len > 0 {
      RunBound(buf, start, len - 1);
      assert IsDigit(buf[start + (len - 1)]);
    }
  }

  /** Read index by index, the digits `digits` placed after `head` have the value of `digits`. */
  lemma {:induction false} RunValueIsValue(head: seq<byte>, digits: seq<byte>, rest: seq<byte>)
    requires AllDigits(digits)
    ensures DigitRun(head + digits + rest, |head|, |digits|)
    ensures RunValue(head + digits + rest, |head|, |digits|) == Value(digits)
    decreases |digits|
  {
    var buf := head + digits + rest;
    assert forall k :: 0 <= k < |digits| ==> buf[|head| + k] == digits[k];
    if digits != [] {
      var prev := digits[..|digits| - 1];
      var last := digits[|digits| - 1];
      assert digits == prev + [last];
      var rest' := [last] + rest;
      assert buf == head + prev + rest';
      RunValueIsValue(head, prev, rest');
      assert RunValue(buf, |head|, |prev|) == Value(prev);
    }
  }

  /** One more digit of a run, seen by the loop at `start + (len - 1)`, carries it to `start + len`. */
  lemma RunStep(buf: seq<byte>, start: nat, len: nat)
    requires 0 < len <= 9 && start + len <= |buf| && DigitRun(buf, start, len)
    ensures 0 <= RunValue(buf, start, len - 1) < Pow10(len - 1) <= 100_000_000
    ensures 0 <= RunValue(buf, start, len) < Pow10(len) <= 1_000_000_000
    ensures ScanFrac(buf, start + (len - 1), RunValue(buf, start, len - 1), Pow10(len - 1))
         == ScanFrac(buf, start + len, RunValue(buf, start, len), Pow10(len))
  {
    RunBound(buf, start, len);
    RunBound(buf, start, len - 1);
    Pow10Mono(len, 9);
    Pow10Nine();
    assert IsDigit(buf[start + (len - 1)]);
    ScanFracStep(buf, start + (len - 1), RunValue(buf, start, len - 1), Pow10(len - 1), RunValue(buf, start, len), Pow10(len));
  }

  /**
   * Over a run of at most nine fraction digits neither product wraps: at the end of the run the
   * loop holds the run's value over 10 to the run's length.
   */
  lemma {:induction false} ScanFracPrefix(buf: seq<byte>, start: nat, len: nat)
    requires len <= 9 && start + len <= |buf| && DigitRun(buf, start, len)
    ensures 0 <= RunValue(buf, start, len) < Pow10(len) <= 1_000_000_000
    ensures ScanFrac(buf, start, 0, 1) == ScanFrac(buf, start + len, RunValue(buf, start, len), Pow10(len))
  {
    RunBound(buf, start, len);
    Pow10Mono(len, 9);
    Pow10Nine();
    if len == 0 {
      assert RunValue(buf, start, len) == 0 && Pow10(len) == 1 && start + len == start;
    } else {
      ScanFracPrefix(buf, start, len - 1);
      RunStep(buf, start, len);
    }
  }

  /**
   * At most nine fraction digits, ended by the buffer's end, a newline or a NUL, accumulate to their
   * exact value over 10^|digits|.
   */
  lemma FractionPart(head: seq<byte>, digits: seq<byte>, rest: seq<byte>)
    requires AllDigits(digits) && |digits| <= 9
    requires rest == [] || rest[0] == NEWLINE || rest[0] == NUL
    ensures Value(digits) < Pow10(|digits|) <= 1_000_000_000
    ensures ScanFrac(head + digits + rest, |head|, 0, 1) == Fraction(Value(digits), Pow10(|digits|))
  {
    Split3(head, digits, rest);
    RunValueIsValue(head, digits, rest);
    ScanFracPrefix(head + digits + rest, |head|, |digits|);
    ScanFracStops(head + digits + rest, |head| + |digits|, Value(digits), Pow10(|digits|));
  }

  // ---------------------------------------------------------------------------------------------
  // Whole conversions of digit strings
  // ---------------------------------------------------------------------------------------------

  /** With both parts below 16 the synthesis neither wraps nor saturates: it is `(ipart << 4) | frac`. */
  lemma SynthesizeSmall(ipart: u32, frac: u32)
    requires ipart < 16 && frac < 16
    ensures Synthesize(ipart, frac) == 16 * ipart + frac
  {
  }

  /** An integer part from 16 to 2^28 - 1 shifts without wrapping and so always saturates. */
  lemma SynthesizeLarge(ipart: u32, frac: u32)
    requires 16 <= ipart < 0x1000_0000 && frac < 16
    ensures Synthesize(ipart, frac) == U8_MAX
  {
  }

  /** Where the two loops stop on `"<I><sep><F>"` and what they accumulate. */
  lemma DecimalScans(whole: seq<byte>, sep: byte, frac: seq<byte>, rest: seq<byte>)
    requires AllDigits(whole) && Value(whole) < 16
    requires sep == DOT || sep == NEWLINE
    requires AllDigits(frac) && |frac| <= 9
    requires rest == [] || rest[0] == NEWLINE || rest[0] == NUL
    ensures Value(frac) < Pow10(|frac|) <= 1_000_000_000
    ensures ScanInt(whole + [sep] + frac + rest, 0, 0) == IntPart(|whole|, Value(whole))
    ensures ScanFrac(whole + [sep] + frac + rest, |whole| + 1, 0, 1) == Fraction(Value(frac), Pow10(|frac|))
  {
    Regroup(whole, sep, frac, rest);
    IntegerPart(whole, [sep] + frac + rest);
    FractionPart(whole + [sep], frac, rest);
  }

  /** For an integer part below 16 and a proper fraction the rounds and the synthesis truncate. */
  lemma DecimalRounds(ipart: u32, numer: u32, denom: u32)
    requires ipart < 16 && numer < denom <= 0x8000_0000
    ensures Synthesize(ipart, Binarize(numer, denom, 4, 0)) == 16 * ipart + 16 * numer / denom
  {
    BinarizeTruncates(numer, denom);
    Pow2Values();
    BinarizeBound(numer, denom, 4, 0);
    SynthesizeSmall(ipart, 16 * numer / denom);
  }

  /**
   * `"<I><sep><F>"` with I below 16, `sep` a '.' (or a newline, after which the fraction loop
   * still reads on), and at most nine fraction digits: 16 * I plus the truncated sixteenths of F.
   */
  lemma DecimalEncoding(whole: seq<byte>, sep: byte, frac: seq<byte>, rest: seq<byte>)
    requires AllDigits(whole) && Value(whole) < 16
    requires sep == DOT || sep == NEWLINE
    requires AllDigits(frac) && |frac| <= 9
    requires rest == [] || rest[0] == NEWLINE || rest[0] == NUL
    ensures Encode(whole + [sep] + frac + rest) == 16 * Value(whole) + 16 * Value(frac) / Pow10(|frac|)
  {
    DecimalSynthesis(whole, sep, frac, rest);
    DecimalRounds(Value(whole), Value(frac), Pow10(|frac|));
  }

  /** The encoding of `"<I><sep><F>"` is the synthesis of I with the rounds on F over 10^|F|. */
  lemma DecimalSynthesis(whole: seq<byte>, sep: byte, frac: seq<byte>, rest: seq<byte>)
    requires AllDigits(whole) && Value(whole) < 16
    requires sep == DOT || sep == NEWLINE
    requires AllDigits(frac) && |frac| <= 9
    requires rest == [] || rest[0] == NEWLINE || rest[0] == NUL
    ensures Value(frac) < Pow10(|frac|) <= 1_000_000_000
    ensures Encode(whole + [sep] + frac + rest) == Synthesize(Value(whole), Binarize(Value(frac), Pow10(|frac|), 4, 0))
  {
    var buf := whole + [sep] + frac + rest;
    DecimalScans(whole, sep, frac, rest);
    assert ScanInt(buf, 0, 0) == IntPart(|whole|, Value(whole));
    assert ScanFrac(buf, |whole| + 1, 0, 1) == Fraction(Value(frac), Pow10(|frac|));
    EncodeOf(buf, |whole|, Value(whole), Value(frac), Pow10(|frac|));
  }

  /** A bare digit string below 2^32 encodes as `(ipart << 4)` wrapped to 32 bits, then saturated. */
  lemma WholeNumber(digits: seq<byte>)
    requires AllDigits(digits) && Value(digits) < U32_MOD
    ensures Encode(digits) == Synthesize(Value(digits), 0)
  {
    assert digits + [] == digits;
    IntegerPart(digits, []);
    BinarizeTruncates(0, 1);
    EncodeOf(digits, |digits|, Value(digits), 0, 1);
  }

  /** A bare digit string below 16 encodes as 16 times its value. */
  lemma IntegerEncoding(digits: seq<byte>)
    requires AllDigits(digits) && Value(digits) < 16
    ensures Encode(digits) == 16 * Value(digits)
  {
    WholeNumber(digits);
    SynthesizeSmall(Value(digits), 0);
  }

  /**
   * An integer part from 16 up to 2^28 - 1, where `ipart << 4` does not wrap, saturates whatever
   * fraction follows.
   */
  lemma LargeIntegerSaturates(whole: seq<byte>, rest: seq<byte>)
    requires AllDigits(whole) && 16 <= Value(whole) < 0x1000_0000
    requires rest == [] || rest[0] == NEWLINE || rest[0] == DOT
    ensures Encode(whole + rest) == U8_MAX
  {
    IntegerPart(whole, rest);
    var fr := ScanFrac(whole + rest, |whole| + 1, 0, 1);
    Pow2Values();
    BinarizeBound(fr.numer, fr.denom, 4, 0);
    EncodeOf(whole + rest, |whole|, Value(whole), fr.numer, fr.denom);
    SynthesizeLarge(Value(whole), Binarize(fr.numer, fr.denom, 4, 0));
  }

  // ---------------------------------------------------------------------------------------------
  // Round trip through base_rate_show
  // ---------------------------------------------------------------------------------------------

  /** The decode's four-digit fraction is exact, so encoding it gives back the low nibble. */
  lemma SixteenthsBack(b: byte)
    ensures 16 * Decode(b).fpart / Pow10(4) == b % 16
  {
    var p := Decode(b);
    assert Pow10(4) == 10000;
    var k := p.fpart / 625;
    assert p.fpart == 625 * k;
    assert 16 * p.fpart == k * 10000;
    DivUnique(16 * p.fpart, 10000, k, 0);
  }

  /**
   * The `"%u.%04u"` text `base_rate_show` prints for any byte, with or without the newline `echo`
   * appends, converts back to that byte.
   */
  lemma RateTextRoundTrip(b: byte)
    ensures Encode(RateText(b)) == b
    ensures Encode(RateText(b) + [NEWLINE]) == b
  {
    var p := Decode(b);
    var whole := DecimalText(p.ipart);
    assert Pow10(4) == 10000;
    var frac := PaddedText(p.fpart, 4);
    SixteenthsBack(b);
    DecimalEncoding(whole, DOT, frac, []);
    assert RateText(b) == whole + [DOT] + frac + [];
    DecimalEncoding(whole, DOT, frac, [NEWLINE]);
  }

  // ---------------------------------------------------------------------------------------------
  // Examples
  // ---------------------------------------------------------------------------------------------

  /** 0x57 is shown as "5.4375". */
  lemma RateTextExample()
    ensures RateText(0x57) == [0x35, DOT, 0x34, 0x33, 0x37, 0x35]
  {
    assert Decode(0x57) == RateParts(5, 4375);
    assert DecimalText(5) == [0x35];
    assert DecimalText(43) == [0x34, 0x33];
    assert DecimalText(437) == [0x34, 0x33, 0x37];
    assert DecimalText(4375) == [0x34, 0x33, 0x37, 0x35];
    assert PaddedText(4375, 4) == DecimalText(4375);
  }

  /** "0" gives 0x00. */
  lemma ZeroEncoding()
    ensures Encode([ZERO_CHAR]) == 0x00
  {
    IntegerEncoding([ZERO_CHAR]);
  }

  /** "15.9375" is "15", the point and the four digits of 9375. */
  lemma MaxRateParts()
    ensures AllDigits([0x31, 0x35]) && Value([0x31, 0x35]) == 15
    ensures AllDigits([0x39, 0x33, 0x37, 0x35]) && Value([0x39, 0x33, 0x37, 0x35]) == 9375
    ensures Pow10(|[0x39, 0x33, 0x37, 0x35]|) == 10000
    ensures [0x31, 0x35] + [DOT] + [0x39, 0x33, 0x37, 0x35] + [] == [0x31, 0x35, DOT, 0x39, 0x33, 0x37, 0x35]
  {
    var frac: seq<byte> := [0x39, 0x33, 0x37, 0x35];
    assert frac[..3] == [0x39, 0x33, 0x37];
    assert [0x39, 0x33, 0x37][..2] == [0x39, 0x33];
    assert [0x39, 0x33][..1] == [0x39];
    assert [0x31, 0x35][..1] == [0x31];
    assert Pow10(4) == 10000;
  }

  /** "15.9375", the largest rate, gives 0xFF. */
  lemma MaxRateEncoding()
    ensures Encode([0x31, 0x35, DOT, 0x39, 0x33, 0x37, 0x35]) == 0xFF
  {
    MaxRateParts();
    DecimalEncoding([0x31, 0x35], DOT, [0x39, 0x33, 0x37, 0x35], []);
  }

  /** A NUL does not end the integer part: "1\0" saturates where "1" gives 0x10. */
  lemma NulInIntegerPart()
    ensures Encode([0x31]) == 0x10
    ensures Encode([0x31, NUL]) == U8_MAX
  {
    IntegerEncoding([0x31]);
    var buf := [0x31, NUL];
    var wrapped: u32 := U32_MOD - 38;
    assert ToU32(10 * 1 + DigitDelta(NUL)) == wrapped;
    assert ScanInt(buf, 1, 1) == ScanInt(buf, 2, wrapped) == IntPart(2, wrapped);
    assert ScanInt(buf, 0, 0) == ScanInt(buf, 1, 1);
    assert ScanFrac(buf, 3, 0, 1) == Fraction(0, 1);
    BinarizeTruncates(0, 1);
    EncodeOf(buf, 2, wrapped, 0, 1);
  }
}

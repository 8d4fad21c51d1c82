/**
 * The UQ4.4 fixed-point codec of the HPS_LED_Patterns driver: `str2UQ44`, which turns the decimal
 * text written to the base-rate attribute into a byte with four integer and four fractional bits,
 * and the decode that `base_rate_show` uses to render that byte back as text.
 *
 * All arithmetic is that of C's `unsigned int`: 32 bits, wrapping modulo 2^32. The overflow checks
 * of the source compare wrapped values and are modelled exactly as written.
 */
module Uq44 {

  import opened CTypes
  import opened Decimal

  const NEWLINE: byte := 0x0A
  const NUL: byte := 0x00
  const DOT: byte := 0x2E

  /** `buf[i] - '0'`: the offset of a character from '0', negative below it. */
  function DigitDelta(c: byte): int {
    c - ZERO_CHAR
  }

  function Pow2(n: nat): (r: nat)
    ensures r >= 1
  {
    if n == 0 then 1 else 2 * Pow2(n - 1)
  }

  // ---------------------------------------------------------------------------------------------
  // The three loops of str2UQ44, as functions of the loop state
  // ---------------------------------------------------------------------------------------------

  /** Outcome of the integer loop: the early 0xFF return, or the index it stopped at and `ipart`. */
  datatype IntScan = Saturated | IntPart(stop: nat, ipart: u32)

  /**
   * The integer loop from index `i` with accumulator `ipart`: multiply-add each character until
   * the end of the buffer, a newline or a '.', giving up as soon as the running value decreases.
   */
  function ScanInt(buf: seq<byte>, i: nat, ipart: u32): (r: IntScan)
    requires i <= |buf|
    decreases |buf| - i
  {
    if i == |buf| || buf[i] == NEWLINE || buf[i] == DOT then IntPart(i, ipart)
    else
      var itemp := ToU32(10 * ipart + DigitDelta(buf[i]));
      if itemp < ipart then Saturated else ScanInt(buf, i + 1, itemp)
  }

  /** The accumulated fractional numerator and its power-of-ten denominator `one`. */
  datatype Fraction = Fraction(numer: u32, denom: u32)

  /**
   * The fraction loop from index `i`: accumulate digits into the numerator and multiply the
   * denominator by ten, until the end of the buffer, a newline or a NUL; stop early, keeping what
   * is accumulated, when either product is seen to wrap.
   */
  function ScanFrac(buf: seq<byte>, i: nat, fpart: u32, one: u32): (r: Fraction)
    decreases |buf| - i
  {
    if i >= |buf| || buf[i] == NEWLINE || buf[i] == NUL then Fraction(fpart, one)
    else
      var ftemp := ToU32(10 * fpart + DigitDelta(buf[i]));
      if ftemp < fpart then Fraction(fpart, one)
      else
        var otemp := ToU32(one * 10);
        if otemp < one then Fraction(fpart, one)
        else ScanFrac(buf, i + 1, ftemp, otemp)
  }

  /** The fraction loop ends at a terminator or at the first product seen to wrap. */
  lemma ScanFracStops(buf: seq<byte>, i: nat, fpart: u32, one: u32)
    requires || i >= |buf| || buf[i] == NEWLINE || buf[i] == NUL
             || ToU32(10 * fpart + DigitDelta(buf[i])) < fpart
             || ToU32(one * 10) < one
    ensures ScanFrac(buf, i, fpart, one) == Fraction(fpart, one)
  {
  }

  /**
   * The remaining `rounds` of the double/compare/subtract loop that turns `fpart / one` into
   * binary fraction bits shifted into `result`.
   */
  function Binarize(fpart: u32, one: u32, rounds: nat, result: u32): u32
    decreases rounds
  {
    if rounds == 0 then result
    else
      var f := WrapOnce(fpart * 2);
      var res := WrapOnce(result * 2);
      if f >= one then Binarize(f - one, one, rounds - 1, WrapOnce(res + 1))
      else Binarize(f, one, rounds - 1, res)
  }

  /** One round of the double/compare/subtract loop moves Binarize one round on. */
  lemma BinarizeRound(f0: u32, one: u32, rounds: nat, r0: u32, f: u32, r: u32)
    requires rounds >= 1
    requires f == if WrapOnce(f0 * 2) >= one then WrapOnce(f0 * 2) - one else WrapOnce(f0 * 2)
    requires r == if WrapOnce(f0 * 2) >= one then WrapOnce(WrapOnce(r0 * 2) + 1) else WrapOnce(r0 * 2)
    ensures Binarize(f, one, rounds - 1, r) == Binarize(f0, one, rounds, r0)
  {
  }

  lemma Pow2Values()
    ensures Pow2(0) == 1 && Pow2(1) == 2 && Pow2(2) == 4 && Pow2(3) == 8 && Pow2(4) == 16
  {
  }

  /** Four rounds from `result == 0` shift in four bits: the loop yields a value below 16. */
  lemma {:induction false} BinarizeBound(fpart: u32, one: u32, rounds: nat, result: u32)
    requires rounds <= 4 && result < Pow2(4 - rounds)
    ensures Binarize(fpart, one, rounds, result) < 16
    decreases rounds
  {
    Pow2Values();
    if rounds > 0 {
      assert Pow2(4 - (rounds - 1)) == 2 * Pow2(4 - rounds);
      var f := WrapOnce(fpart * 2);
      var res := WrapOnce(result * 2);
      var f': u32 := if f >= one then f - one else f;
      var r': u32 := if f >= one then WrapOnce(res + 1) else res;
      BinarizeRound(fpart, one, rounds, result, f', r');
      BinarizeBound(f', one, rounds - 1, r');
    }
  }

  /** `result += ipart << 4`, then saturate anything above 0xFF. */
  function Synthesize(ipart: u32, frac: u32): byte {
    var result := WrapOnce(frac + ToU32(ipart * 16));
    if result > U8_MAX then U8_MAX else result
  }

  /** The four rounds on the scanned fraction, then the synthesis. */
  function Finish(ipart: u32, fr: Fraction): byte {
    Synthesize(ipart, Binarize(fr.numer, fr.denom, 4, 0))
  }

  /** What `str2UQ44` returns once its integer loop stopped at `stop` holding `ipart`. */
  function EncodeFraction(buf: seq<byte>, stop: nat, ipart: u32): byte {
    Finish(ipart, ScanFrac(buf, stop + 1, 0, 1))
  }

  /** What `str2UQ44` returns for the `size` bytes `buf`. */
  function Encode(buf: seq<byte>): byte {
    match ScanInt(buf, 0, 0)
    case Saturated => U8_MAX
    case IntPart(stop, ipart) => EncodeFraction(buf, stop, ipart)
  }

  /** The integer loop of `str2UQ44`: `Saturated` is the early `return U8_MAX`. */
  method IntegerLoop(buf: seq<byte>) returns (r: IntScan)
    ensures r == ScanInt(buf, 0, 0)
  {
    var ipart: u32 := 0;
    var i: nat := 0;
    while i < |buf| && buf[i] != NEWLINE && buf[i] != DOT
      invariant i <= |buf|
      invariant ScanInt(buf, i, ipart) == ScanInt(buf, 0, 0)
    {
      var itemp := ToU32(10 * ipart + DigitDelta(buf[i]));
      if itemp < ipart {
        return Saturated;
      }
      ipart := itemp;
      i := i + 1;
    }
    return IntPart(i, ipart);
  }

  /** The fraction loop of `str2UQ44`, entered at index `start`, one past the integer part. */
  method FractionLoop(buf: seq<byte>, start: nat) returns (r: Fraction)
    ensures r == ScanFrac(buf, start, 0, 1)
  {
    var fpart: u32 := 0;
    var one: u32 := 1;
    var i: nat := start;
    while i < |buf| && buf[i] != NEWLINE && buf[i] != NUL
      invariant start <= i
      invariant ScanFrac(buf, i, fpart, one) == ScanFrac(buf, start, 0, 1)
      decreases |buf| - i
    {
      var ftemp := ToU32(10 * fpart + DigitDelta(buf[i]));
      if ftemp < fpart {
        ScanFracStops(buf, i, fpart, one);
        break;
      }
      var otemp := ToU32(one * 10);
      if otemp < one {
        ScanFracStops(buf, i, fpart, one);
        break;
      }
      fpart := ftemp;
      one := otemp;
      i := i + 1;
    }
    if i >= |buf| || buf[i] == NEWLINE || buf[i] == NUL {
      ScanFracStops(buf, i, fpart, one);
    }
    return Fraction(fpart, one);
  }

  /** The four rounds of doubling, comparing with `one` and subtracting that build the fraction bits. */
  method BinaryLoop(numer: u32, one: u32) returns (result: u32)
    ensures result == Binarize(numer, one, 4, 0)
  {
    var fpart: u32 := numer;
    result := 0;
    for k := 0 to 4
      invariant Binarize(fpart, one, 4 - k, result) == Binarize(numer, one, 4, 0)
    {
      ghost var f0: u32, r0: u32 := fpart, result;
      fpart := WrapOnce(fpart * 2);
      result := WrapOnce(result * 2);
      if fpart >= one {
        result := WrapOnce(result + 1);
        fpart := fpart - one;
      }
      BinarizeRound(f0, one, 4 - k, r0, fpart, result);
    }
  }

  /** Encode runs the integer scan, then the fraction scan one past where it stopped, then both rounds. */
  lemma EncodeOf(buf: seq<byte>, stop: nat, ipart: u32, numer: u32, denom: u32)
    requires ScanInt(buf, 0, 0) == IntPart(stop, ipart)
    requires ScanFrac(buf, stop + 1, 0, 1) == Fraction(numer, denom)
    ensures Encode(buf) == Synthesize(ipart, Binarize(numer, denom, 4, 0))
  {
    assert Encode(buf) == EncodeFraction(buf, stop, ipart);
    assert EncodeFraction(buf, stop, ipart) == Finish(ipart, Fraction(numer, denom));
  }

  /**
   * `str2UQ44(buf, size)`, with `buf` the `size` bytes handed to the attribute store; its three
   * loops are the three methods above, in the order the source runs them.
   */
  method Str2UQ44(buf: seq<byte>) returns (r: byte)
    ensures r == Encode(buf)
  {
    var scan := IntegerLoop(buf);
    if scan.Saturated? {
      return U8_MAX;
    }
    var fraction := FractionLoop(buf, scan.stop + 1);
    var result := BinaryLoop(fraction.numer, fraction.denom);
    EncodeOf(buf, scan.stop, scan.ipart, fraction.numer, fraction.denom);
    ghost var frac := result;
    result := WrapOnce(result + ToU32(scan.ipart * 16));
    assert Synthesize(scan.ipart, frac) == if result > U8_MAX then U8_MAX else result;
    if result > U8_MAX {
      r := U8_MAX;
    } else {
      r := result;
    }
  }

  // ---------------------------------------------------------------------------------------------
  // base_rate_show: the decode back to text
  // ---------------------------------------------------------------------------------------------

  /** The two numbers `base_rate_show` prints: the integer part and the fraction in ten-thousandths. */
  datatype RateParts = RateParts(ipart: u32, fpart: u32)

  /**
   * On an unsigned byte `>> 4` is the quotient by 16 and `& 0x0F` the remainder, which is how the
   * decode below reads the source's shift and mask.
   */
  lemma ShiftMask(v: bv8)
    ensures (v >> 4) as int == v as int / 16
    ensures (v & 0x0F) as int == v as int % 16
  {
  }

  /** A count of sixteenths in ten-thousandths, and back. */
  lemma Tenthousandths(k: int)
    ensures (k * 625) / 625 == k && (k * 625) % 625 == 0
  {
  }

  /**
   * `ipart = base_rate >> 4` and `fpart = (base_rate & 0x0F) * 625`: the high nibble, and the low
   * nibble in units of 1/16 = 0.0625, i.e. 625 ten-thousandths.
   */
  function Decode(b: byte): (p: RateParts)
    ensures p.ipart < 16 && p.fpart <= 9375 && p.fpart % 625 == 0
    ensures 16 * p.ipart + p.fpart / 625 == b
  {
    var lo := b % 16;
    Tenthousandths(lo);
    RateParts(b / 16, lo * 625)
  }

  /** The `"%u.%04u"` text `base_rate_show` prints for a register byte, before the tab. */
  function RateText(b: byte): (s: seq<byte>)
    ensures |s| == 6 || |s| == 7
    ensures s[|s| - 5] == DOT
  {
    var p := Decode(b);
    assert Pow10(4) == 10000;
    DecimalTextLength(p.ipart, 2);
    DecimalText(p.ipart) + [DOT] + PaddedText(p.fpart, 4)
  }
}

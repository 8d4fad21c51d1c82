/**
 * Decimal text as the C library writes it (`%u`, `%04u`) and reads it (digit by digit): the
 * vocabulary in which the fixed-point codec is specified.
 */
module Decimal {

  import opened CTypes

  /** The character '0'. */
  const ZERO_CHAR: byte := 0x30

  predicate IsDigit(c: byte) {
    ZERO_CHAR <= c <= ZERO_CHAR + 9
  }

  predicate AllDigits(s: seq<byte>) {
    forall k :: 0 <= k < |s| ==> IsDigit(s[k])
  }

  function Pow10(n: nat): (r: nat)
    ensures r >= 1
  {
    if n == 0 then 1 else 10 * Pow10(n - 1)
  }

  /** The number a string of decimal digits denotes. */
  function Value(s: seq<byte>): (v: nat)
    requires AllDigits(s)
    ensures v < Pow10(|s|)
    decreases |s|
  {
    if s == [] then 0 else 10 * Value(s[..|s| - 1]) + (s[|s| - 1] - ZERO_CHAR)
  }

  /** Appending one digit multiplies by ten and adds the digit. */
  lemma ValueSnoc(s: seq<byte>, c: byte)
    requires AllDigits(s) && IsDigit(c)
    ensures AllDigits(s + [c]) && Value(s + [c]) == 10 * Value(s) + (c - ZERO_CHAR)
  {
    assert (s + [c])[..|s|] == s;
  }

  /** The digits of a concatenation combine by place value. */
  lemma {:induction false} ValueConcat(a: seq<byte>, b: seq<byte>)
    requires AllDigits(a) && AllDigits(b)
    ensures AllDigits(a + b) && Value(a + b) == Value(a) * Pow10(|b|) + Value(b)
    decreases |b|
  {
    if b == [] {
      assert a + b == a;
    } else {
      var b' := b[..|b| - 1];
      var c := b[|b| - 1];
      assert a + b == (a + b') + [c];
      assert b == b' + [c];
      ValueConcat(a, b');
      ValueSnoc(a + b', c);
      ValueSnoc(b', c);
      PlaceValueStep(Value(a), Pow10(|b'|), Value(b'), c - ZERO_CHAR);
    }
  }

  lemma PlaceValueStep(x: int, p: int, y: int, d: int)
    ensures 10 * (x * p + y) + d == x * (10 * p) + (10 * y + d)
  {
  }

  function Zeros(n: nat): (s: seq<byte>)
    ensures |s| == n && AllDigits(s)
  {
    seq(n, _ => ZERO_CHAR)
  }

  /** Leading zeros denote nothing. */
  lemma {:induction false} ValueZeros(n: nat)
    ensures Value(Zeros(n)) == 0
  {
    if n > 0 {
      assert Zeros(n)[..n - 1] == Zeros(n - 1);
      ValueZeros(n - 1);
    }
  }

  /** `%u`: the shortest decimal text of `v`. */
  function DecimalText(v: nat): (s: seq<byte>)
    ensures 1 <= |s| && AllDigits(s) && Value(s) == v
    ensures |s| == 1 || s[0] != ZERO_CHAR
    decreases v
  {
    if v < 10 then [ZERO_CHAR + v]
    else
      var s := DecimalText(v / 10) + [ZERO_CHAR + v % 10];
      ValueSnoc(DecimalText(v / 10), ZERO_CHAR + v % 10);
      s
  }

  /** A number below 10^w needs at most w digits. */
  lemma {:induction false} DecimalTextLength(v: nat, w: nat)
    requires 1 <= w && v < Pow10(w)
    ensures |DecimalText(v)| <= w
    decreases w
  {
    if v >= 10 {
      DecimalTextLength(v / 10, w - 1);
    }
  }

  /** `%0<width>u`: the decimal text of `v`, left-padded with zeros to at least `width` characters. */
  function PaddedText(v: nat, width: nat): (s: seq<byte>)
    ensures AllDigits(s) && Value(s) == v
    ensures |s| >= width
    ensures 1 <= width && v < Pow10(width) ==> |s| == width
  {
    var d := DecimalText(v);
    if |d| >= width then
      if 1 <= width && v < Pow10(width) then DecimalTextLength(v, width); d else d
    else
      ValueConcat(Zeros(width - |d|), d);
      ValueZeros(width - |d|);
      Zeros(width - |d|) + d
  }
}

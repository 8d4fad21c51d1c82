/** Facts about Euclidean division by a positive divisor that the solver does not find alone. */
module Arith {

  /** A nonzero multiple of a positive number is at least that number away from zero. */
  lemma MulSign(k: int, d: int)
    requires d > 0
    ensures k >= 1 ==> k * d >= d
    ensures k <= -1 ==> k * d <= -d
  {
    if k >= 1 {
      assert (k - 1) * d >= 0;
    } else if k <= -1 {
      assert (-k - 1) * d >= 0;
    }
  }

  /** Floor division is unique: a quotient and remainder in range are the ones `/` and `%` give. */
  lemma DivUnique(n: int, d: int, q: int, r: int)
    requires d > 0 && n == q * d + r && 0 <= r < d
    ensures n / d == q
  {
    var k := q - n / d;
    assert k * d == q * d - (n / d) * d;
    MulSign(k, d);
  }

  /** Adding `k` whole multiples of the divisor adds `k` to the quotient. */
  lemma DivAddMultiple(x: int, k: int, d: int)
    requires d > 0
    ensures (x + k * d) / d == x / d + k
  {
    DivUnique(x + k * d, d, x / d + k, x % d);
  }

  /** Counting on by one moves the remainder on by one, wrapping to 0 at the divisor. */
  lemma ModSucc(x: nat, d: int)
    requires d > 0
    ensures (x + 1) % d == if x % d == d - 1 then 0 else x % d + 1
  {
    if x % d == d - 1 {
      DivUnique(x + 1, d, x / d + 1, 0);
    } else {
      DivUnique(x + 1, d, x / d, x % d + 1);
    }
  }
}

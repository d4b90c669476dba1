/** Integer helpers the byte-size model is built on: exact powers, Go's
    left shift on non-negative operands, and Go's truncating division. */
module Arith {

  /** base raised to the k-th power, by repeated multiplication. */
  function Pow(base: int, k: nat): int
  {
    if k == 0 then 1 else base * Pow(base, k - 1)
  }

  lemma {:induction false} PowPositive(base: int, k: nat)
    requires base > 0
    ensures Pow(base, k) > 0
  {
    if k > 0 {
      PowPositive(base, k - 1);
    }
  }

  /** Exponents add under multiplication. */
  lemma {:induction false} PowAdd(base: int, a: nat, b: nat)
    ensures Pow(base, a + b) == Pow(base, a) * Pow(base, b)
  {
    if a > 0 {
      PowAdd(base, a - 1, b);
      assert Pow(base, a + b) == base * Pow(base, (a - 1) + b);
    }
  }

  /** A power of a power multiplies the exponents. */
  lemma {:induction false} PowMul(base: int, a: nat, b: nat)
    ensures Pow(base, a * b) == Pow(Pow(base, a), b)
  {
    if b > 0 {
      PowMul(base, a, b - 1);
      assert a * b == a * (b - 1) + a;
      PowAdd(base, a * (b - 1), a);
    }
  }

  /** For a base above one the powers strictly increase with the exponent. */
  lemma {:induction false} PowStrictlyIncreasing(base: int, a: nat, b: nat)
    requires base > 1 && a < b
    ensures Pow(base, a) < Pow(base, b)
  {
    PowPositive(base, b - 1);
    if a < b - 1 {
      PowStrictlyIncreasing(base, a, b - 1);
    }
  }

  /** Go's `x << k` for a non-negative x whose result does not overflow:
      the value doubled k times. */
  function ShiftLeft(x: nat, k: nat): (r: nat)
    ensures r == x * Pow(2, k)
    ensures x > 0 ==> r > 0
    decreases k
  {
    if k == 0 then x
    else
      var r := ShiftLeft(x * 2, k - 1);
      assert x * 2 * Pow(2, k - 1) == x * Pow(2, k);
      r
  }

  /** Shifting one left by 10*k bits is the k-th power of 1024. */
  lemma ShiftIsPowerOf1024(k: nat)
    ensures ShiftLeft(1, 10 * k) == Pow(1024, k)
  {
    PowMul(2, 10, k);
  }

  /** Go's integer `/` and `%` for a positive divisor: the quotient is
      truncated toward zero, so the remainder takes the sign of the dividend. */
  function TruncDivMod(a: int, b: int): (r: (int, int))
    requires b > 0
    ensures r.0 * b + r.1 == a
    ensures 0 <= a ==> 0 <= r.1 < b
    ensures a < 0 ==> -b < r.1 <= 0
  {
    if a >= 0 then (a / b, a % b)
    else (-((-a) / b), -((-a) % b))
  }

  /** On a non-negative dividend, Go's truncating division agrees with
      Dafny's Euclidean division. */
  lemma TruncDivModOfNatural(a: int, b: int)
    requires a >= 0 && b > 0
    ensures TruncDivMod(a, b) == (a / b, a % b)
  {
  }
}

/** Integer arithmetic with the rounding and width rules of the JVM, over Dafny's unbounded `int`. */
module JavaArith {

  const TwoTo63: int := 9223372036854775808
  const TwoTo64: int := 18446744073709551616

  /** 10^n, the denominator of a decimal with scale n. */
  function Pow10(n: nat): (p: nat)
    ensures p >= 1
    ensures n >= 1 ==> p >= 10
  {
    if n == 0 then 1 else 10 * Pow10(n - 1)
  }

  /** 10^(i+j) = 10^i * 10^j. */
  lemma {:induction false} Pow10Add(i: nat, j: nat)
    ensures Pow10(i + j) == Pow10(i) * Pow10(j)
  {
    if i > 0 {
      Pow10Add(i - 1, j);
      assert Pow10(i + j) == 10 * Pow10(i - 1 + j);
    }
  }

  function Min(a: int, b: int): (m: int)
    ensures m <= a && m <= b && (m == a || m == b)
  {
    if a <= b then a else b
  }

  /**
   * Quotient rounded toward zero, as `BigInteger.divide` and
   * `BigDecimal.toBigInteger` compute it (Dafny's own `/` rounds down).
   */
  function TruncDiv(a: int, d: int): (q: int)
    requires d > 0
    ensures 0 <= a ==> 0 <= q && q * d <= a < (q + 1) * d
    ensures a < 0 ==> q <= 0 && (q - 1) * d < a <= q * d
  {
    if a >= 0 then
      DivBounds(a, d);
      a / d
    else
      DivBounds(-a, d);
      -((-a) / d)
  }

  lemma {:induction false} DivBounds(a: int, d: int)
    requires a >= 0 && d > 0
    ensures 0 <= a / d && (a / d) * d <= a < (a / d) * d + d
  {
  }

  /** Remainder that goes with `TruncDiv`: it takes the sign of the dividend, as `BigInteger.remainder`. */
  function TruncRem(a: int, d: int): (r: int)
    requires d > 0
    ensures a == TruncDiv(a, d) * d + r
    ensures 0 <= a ==> 0 <= r < d
    ensures a < 0 ==> -d < r <= 0
  {
    if a >= 0 then a % d else -((-a) % d)
  }

  /** `BigInteger.longValue` and `long` addition: the low 64 bits read as a signed number. */
  function ToLong(x: int): (r: int)
    ensures -TwoTo63 <= r < TwoTo63
    ensures (x - r) % TwoTo64 == 0
    ensures -TwoTo63 <= x < TwoTo63 ==> r == x
  {
    (x + TwoTo63) % TwoTo64 - TwoTo63
  }

  /** Quotient and remainder are unique: the one pair that satisfies the division equation. */
  lemma {:induction false} DivModUnique(a: int, m: int, q: int, r: int)
    requires m > 0 && 0 <= r < m && a == q * m + r
    ensures a / m == q && a % m == r
  {
    var q0, r0 := a / m, a % m;
    assert (q - q0) * m == r0 - r;
    if q0 < q {
      MulAtLeast(q - q0, m);
    }
    if q < q0 {
      MulAtLeast(q0 - q, m);
    }
  }

  lemma {:induction false} MulAtLeast(k: int, m: int)
    requires k >= 1 && m > 0
    ensures k * m >= m
  {
  }

  /** Adding a whole number of divisors moves the quotient by exactly that number. */
  lemma {:induction false} DivAddMultiple(a: int, k: int, d: int)
    requires d > 0
    ensures (a + k * d) / d == a / d + k
  {
    DivModUnique(a + k * d, d, a / d + k, a % d);
  }

  /** Dividing twice is dividing once by the product. */
  lemma {:induction false} DivDiv(a: int, b: int, c: int)
    requires b > 0 && c > 0
    ensures (a / b) / c == a / (b * c)
  {
    var q1, r1 := a / b, a % b;
    var q2, r2 := q1 / c, q1 % c;
    assert a == q1 * b + r1;
    assert q1 * b == (q2 * c + r2) * b;
    assert (q2 * c + r2) * b == q2 * (b * c) + r2 * b;
    assert r2 * b <= (c - 1) * b by {
      MulLe(r2, c - 1, b);
    }
    DivModUnique(a, b * c, q2, r2 * b + r1);
  }

  lemma {:induction false} MulLe(x: int, y: int, m: int)
    requires x <= y && m >= 0
    ensures x * m <= y * m
  {
  }

  /** A common factor of dividend and divisor cancels. */
  lemma {:induction false} MulDivCancel(a: int, b: int, c: int)
    requires b > 0 && c > 0
    ensures (a * c) / (b * c) == a / b
  {
    var q, r := a / b, a % b;
    assert a * c == q * (b * c) + r * c;
    MulLe(r, b - 1, c);
    DivModUnique(a * c, b * c, q, r * c);
  }

  /** Reducing modulo a multiple of m first does not change the remainder modulo m. */
  lemma {:induction false} ModMod(a: int, m: int, k: int)
    requires m > 0 && k > 0
    ensures (a % (k * m)) % m == a % m
  {
    var q, r := a / (k * m), a % (k * m);
    assert a == q * (k * m) + r;
    var q2, r2 := r / m, r % m;
    assert a == (q * k + q2) * m + r2;
    DivModUnique(a, m, q * k + q2, r2);
  }
}

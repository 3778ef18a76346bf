/** Integer arithmetic as the Java source performs it on BigInteger and long
    values: truncating division, the greatest common divisor of
    BigInteger.gcd, and small powers. */
module Arith {

  function Abs(x: int): nat {
    if x < 0 then -x else x
  }

  /** Java's `/` on long and BigInteger.divide: rounds toward zero. */
  function JavaDiv(a: int, b: int): int
    requires b != 0
  {
    var q := Abs(a) / Abs(b);
    if (a < 0) == (b < 0) then q else -q
  }

  /** Java's `%` on long: the remainder takes the sign of the dividend. */
  function JavaRem(a: int, b: int): int
    requires b != 0
  {
    a - b * JavaDiv(a, b)
  }

  /** `b` raised to the power `e`. */
  function Power(b: int, e: nat): int {
    if e == 0 then 1 else b * Power(b, e - 1)
  }

  /** Euclid's algorithm on natural numbers. */
  function NatGcd(x: nat, y: nat): nat
    decreases y
  {
    if y == 0 then x else NatGcd(y, x % y)
  }

  /** BigInteger.gcd: the greatest common divisor of the absolute values,
      with gcd(0, 0) = 0. */
  function Gcd(a: int, b: int): nat {
    NatGcd(Abs(a), Abs(b))
  }

  // ---------------------------------------------------------------------
  // Division and remainder

  /** Euclidean quotient and remainder are determined by n = q*m + r. */
  lemma DivModUnique(n: int, m: int, q: int, r: int)
    requires m > 0 && 0 <= r < m && n == q * m + r
    ensures n / m == q && n % m == r
  {
    var q0, r0 := n / m, n % m;
    assert n == q0 * m + r0;
    assert (q - q0) * m == r0 - r;
    if q > q0 {
      assert (q - q0) * m >= m by { MulAtLeast(q - q0, m); }
      assert false;
    } else if q < q0 {
      assert (q0 - q) * m >= m by { MulAtLeast(q0 - q, m); }
      assert false;
    }
  }

  lemma MulAtLeast(k: int, m: int)
    requires k >= 1 && m > 0
    ensures k * m >= m
  {
    assert k * m == (k - 1) * m + m;
    assert (k - 1) * m >= 0;
  }

  lemma MulDiv(q: int, m: int)
    requires m > 0
    ensures (q * m) / m == q && (q * m) % m == 0
  {
    DivModUnique(q * m, m, q, 0);
  }

  lemma AbsMul(x: int, y: int)
    ensures Abs(x * y) == Abs(x) * Abs(y)
  {
    if x < 0 && y < 0 {
      assert x * y == (-x) * (-y);
    } else if x < 0 {
      assert -(x * y) == (-x) * y;
    } else if y < 0 {
      assert -(x * y) == x * (-y);
    }
  }

  /** An exact Java division is the true quotient. */
  lemma JavaDivExact(q: int, b: int)
    requires b != 0
    ensures JavaDiv(q * b, b) == q
  {
    AbsMul(q, b);
    MulDiv(Abs(q), Abs(b));
    if q > 0 && b > 0 {
      assert q * b > 0 by { MulAtLeast(q, b); }
    } else if q > 0 && b < 0 {
      assert q * (-b) > 0 by { MulAtLeast(q, -b); }
      assert q * b == -(q * (-b));
    } else if q < 0 && b > 0 {
      assert (-q) * b > 0 by { MulAtLeast(-q, b); }
      assert q * b == -((-q) * b);
    } else if q < 0 && b < 0 {
      assert (-q) * (-b) > 0 by { MulAtLeast(-q, -b); }
      assert q * b == (-q) * (-b);
    }
  }

  /** On a non-negative dividend and a positive divisor Java's operators
      agree with Euclidean ones. */
  lemma JavaDivNonNegative(n: int, m: int)
    requires n >= 0 && m > 0
    ensures JavaDiv(n, m) == n / m && JavaRem(n, m) == n % m
  {
  }

  /** Dividing twice is dividing by the product. */
  lemma DivDiv(n: int, a: int, b: int)
    requires n >= 0 && a > 0 && b > 0
    ensures (n / a) / b == n / (a * b)
  {
    var q1, r1 := n / a, n % a;
    var q2, r2 := q1 / b, q1 % b;
    assert n == a * (b * q2 + r2) + r1;
    assert n == q2 * (a * b) + (a * r2 + r1);
    assert a * r2 <= a * (b - 1) by { MulMono(a, r2, b - 1); }
    DivModUnique(n, a * b, q2, a * r2 + r1);
  }

  lemma MulMono(a: int, x: int, y: int)
    requires a >= 0 && x <= y
    ensures a * x <= a * y
  {
    assert a * y - a * x == a * (y - x);
  }

  // ---------------------------------------------------------------------
  // Divisibility

  /** Multiples of c are closed under the combination k*x + y. */
  lemma DividesCombination(c: int, x: int, y: int, k: int)
    requires c > 0 && x % c == 0 && y % c == 0
    ensures (k * x + y) % c == 0
  {
    var ix, iy := x / c, y / c;
    assert x == ix * c && y == iy * c;
    assert k * x + y == (k * ix + iy) * c;
    MulDiv(k * ix + iy, c);
  }

  lemma DividesAbs(c: int, x: int)
    requires c > 0
    ensures x % c == 0 <==> Abs(x) % c == 0
  {
    if x < 0 {
      if x % c == 0 {
        DividesCombination(c, x, 0, -1);
      }
      if Abs(x) % c == 0 {
        DividesCombination(c, Abs(x), 0, -1);
      }
    }
  }

  /** A positive multiple of c is at least c. */
  lemma DivisorAtMost(c: int, g: int)
    requires c > 0 && g > 0 && g % c == 0
    ensures c <= g
  {
    var k := g / c;
    assert g == k * c;
    assert k >= 1;
    MulAtLeast(k, c);
  }

  /** Facts about Euclid's algorithm: the result divides both arguments,
      is zero only for gcd(0, 0), and every common divisor divides it. */
  lemma {:induction false} NatGcdDivides(x: nat, y: nat)
    ensures NatGcd(x, y) == 0 <==> x == 0 && y == 0
    ensures NatGcd(x, y) > 0 ==> x % NatGcd(x, y) == 0 && y % NatGcd(x, y) == 0
    decreases y
  {
    if y > 0 {
      var g := NatGcd(y, x % y);
      NatGcdDivides(y, x % y);
      assert g > 0;
      assert x == (x / y) * y + x % y;
      DividesCombination(g, y, x % y, x / y);
    }
  }

  lemma {:induction false} CommonDivisorDividesNatGcd(x: nat, y: nat, c: int)
    requires c > 0 && x % c == 0 && y % c == 0
    ensures NatGcd(x, y) % c == 0
    decreases y
  {
    if y > 0 {
      assert x % y == -(x / y) * y + x;
      DividesCombination(c, y, x, -(x / y));
      CommonDivisorDividesNatGcd(y, x % y, c);
    }
  }

  /** The facts the rational arithmetic needs about Gcd. */
  lemma GcdProperties(a: int, b: int)
    ensures Gcd(a, b) == 0 <==> a == 0 && b == 0
    ensures Gcd(a, b) > 0 ==> a % Gcd(a, b) == 0 && b % Gcd(a, b) == 0
  {
    NatGcdDivides(Abs(a), Abs(b));
    if Gcd(a, b) > 0 {
      DividesAbs(Gcd(a, b), a);
      DividesAbs(Gcd(a, b), b);
    }
  }

  lemma CommonDivisorDividesGcd(a: int, b: int, c: int)
    requires c > 0 && a % c == 0 && b % c == 0
    ensures Gcd(a, b) % c == 0
  {
    DividesAbs(c, a);
    DividesAbs(c, b);
    CommonDivisorDividesNatGcd(Abs(a), Abs(b), c);
  }

  // ---------------------------------------------------------------------
  // Powers

  lemma {:induction false} PowerPositive(b: int, e: nat)
    requires b > 0
    ensures Power(b, e) > 0
  {
    if e > 0 {
      PowerPositive(b, e - 1);
      MulAtLeast(b, Power(b, e - 1));
    }
  }
}

/** Exact rational numbers (fraction/Fraction.java).

    `Frac` is the value a Fraction object holds; the functions over it
    (Sum, Product, Reciprocal, Reduced) specify what the in-place methods of
    the class `Fraction` compute, and their contracts state the arithmetic
    facts the source relies on. */
module Rationals {
  import opened Arith
  import opened Results

  /** A numerator/denominator pair; the sign lives in the numerator. */
  datatype Frac = Frac(num: int, den: int) {

    /** The invariant every Fraction keeps: a strictly positive denominator. */
    predicate Valid() {
      den >= 1
    }

    /** The rational number the pair denotes. */
    ghost function Value(): real
      requires Valid()
    {
      num as real / den as real
    }
  }

  // -----------------------------------------------------------------------
  // Arithmetic on values

  /** Fraction.add: the denominator becomes lcm(d1, d2) = d1*d2/gcd(d1, d2)
      and both numerators are scaled by exact divisions; nothing is reduced. */
  function Sum(x: Frac, y: Frac): (r: Frac)
    requires x.Valid() && y.Valid()
    ensures r.Valid() && r.Value() == x.Value() + y.Value()
    ensures r.den % x.den == 0 && r.den % y.den == 0 && r.den <= x.den * y.den
    ensures r.den * Gcd(x.den, y.den) == x.den * y.den
  {
    LcmFacts(x.den, y.den);
    SumValueFacts(x.num, x.den, y.num, y.den);
    var l := JavaDiv(x.den * y.den, Gcd(x.den, y.den));
    Frac(JavaDiv(x.num * l, x.den) + JavaDiv(y.num * l, y.den), l)
  }

  /** Fraction.multiply: numerators and denominators multiply; nothing is
      reduced. */
  function Product(x: Frac, y: Frac): (r: Frac)
    requires x.Valid() && y.Valid()
    ensures r.Valid()
    ensures r.num == x.num * y.num && r.den == x.den * y.den
  {
    MulAtLeast(x.den, y.den);
    Frac(x.num * y.num, x.den * y.den)
  }

  /** The product denotes the product of the values. */
  lemma ProductIsProduct(x: Frac, y: Frac)
    requires x.Valid() && y.Valid()
    ensures Product(x, y).Value() == x.Value() * y.Value()
  {
    ProductValue(x.num, x.den, y.num, y.den);
  }

  /** Fraction.invert: fails on a zero numerator; otherwise swaps the two
      parts and moves a negative sign back into the numerator. */
  function Reciprocal(x: Frac): (r: Result<Frac>)
    requires x.Valid()
    ensures r.Ok? <==> x.num != 0
    ensures r.Err? ==> r.error == DivisionByZero
    ensures r.Ok? ==> r.value.Valid() && r.value.Value() * x.Value() == 1.0
    ensures r.Ok? ==> Abs(r.value.num) == x.den && r.value.den == Abs(x.num)
  {
    if x.num == 0 then Err(DivisionByZero)
    else
      var r := if x.num < 0 then Frac(-x.den, -x.num) else Frac(x.den, x.num);
      ReciprocalValue(x.num, x.den);
      Ok(r)
  }

  /** Fraction.reduce: divides both parts by their gcd, which leaves the value
      unchanged, the denominator positive, the parts coprime, and zero as
      0/1. */
  function Reduced(x: Frac): (r: Frac)
    requires x.Valid()
    ensures r.Valid() && r.Value() == x.Value()
    ensures Gcd(r.num, r.den) == 1
    ensures r.num * Gcd(x.num, x.den) == x.num && r.den * Gcd(x.num, x.den) == x.den
    ensures x.num == 0 ==> r == Frac(0, 1)
  {
    GcdProperties(x.num, x.den);
    var g := Gcd(x.num, x.den);
    var r := Frac(JavaDiv(x.num, g), JavaDiv(x.den, g));
    ReducedFacts(x, r);
    r
  }

  lemma ReducedFacts(x: Frac, r: Frac)
    requires x.Valid() && Gcd(x.num, x.den) > 0
    requires r == Frac(JavaDiv(x.num, Gcd(x.num, x.den)), JavaDiv(x.den, Gcd(x.num, x.den)))
    ensures r.Valid() && r.Value() == x.Value()
    ensures Gcd(r.num, r.den) == 1
    ensures r.num * Gcd(x.num, x.den) == x.num && r.den * Gcd(x.num, x.den) == x.den
    ensures x.num == 0 ==> r == Frac(0, 1)
  {
    ReduceParts(x.num, x.den);
    ReduceCoprime(x.num, x.den);
    ReduceValue(x.num, x.den);
  }

  /** Reducing twice is reducing once. */
  lemma ReducedIdempotent(x: Frac)
    requires x.Valid()
    ensures Reduced(Reduced(x)) == Reduced(x)
  {
    var r := Reduced(x);
    JavaDivExact(r.num, 1);
    JavaDivExact(r.den, 1);
  }

  /** Inverting twice gives back the original pair, not only its value. */
  lemma ReciprocalInvolution(x: Frac)
    requires x.Valid() && x.num != 0
    ensures Reciprocal(Reciprocal(x).value) == Ok(x)
  {
  }

  // -----------------------------------------------------------------------
  // Arithmetic facts behind the functions above

  lemma CancelReal(n: int, d: int, k: int)
    requires d != 0 && k != 0
    ensures (n * k) as real / (d * k) as real == n as real / d as real
  {
    assert (n * k) as real == n as real * k as real;
    assert (d * k) as real == d as real * k as real;
  }

  lemma ProductValue(n1: int, d1: int, n2: int, d2: int)
    requires d1 >= 1 && d2 >= 1
    ensures (n1 * n2) as real / (d1 * d2) as real
         == (n1 as real / d1 as real) * (n2 as real / d2 as real)
  {
    assert (n1 * n2) as real == n1 as real * n2 as real;
    assert (d1 * d2) as real == d1 as real * d2 as real;
  }

  lemma ReciprocalValue(n: int, d: int)
    requires d >= 1 && n != 0
    ensures var r := if n < 0 then Frac(-d, -n) else Frac(d, n);
      r.Valid() && r.Value() * (n as real / d as real) == 1.0
  {
  }

  lemma MulAssoc(a: int, b: int, c: int)
    ensures a * (b * c) == (a * b) * c
  {
  }

  /** The parts of lcm(d1, d2) = d1*d2/g with g = gcd(d1, d2): writing
      d1 = k1*g and d2 = k2*g, the lcm is d1*k2 = d2*k1. */
  lemma LcmShape(d1: int, d2: int)
    requires d1 >= 1 && d2 >= 1
    ensures Gcd(d1, d2) >= 1
    ensures var g := Gcd(d1, d2);
      d1 / g >= 1 && d2 / g >= 1 && d2 / g <= d2 &&
      JavaDiv(d1 * d2, g) == d1 * (d2 / g) &&
      d1 * (d2 / g) == d2 * (d1 / g)
  {
    GcdProperties(d1, d2);
    var g := Gcd(d1, d2);
    var k1, k2 := d1 / g, d2 / g;
    assert d1 == k1 * g && d2 == k2 * g;
    assert k1 >= 1 && k2 >= 1;
    assert k2 <= d2 by { MulAtLeast(g, k2); }
    calc {
      d1 * d2;
      d1 * (k2 * g);
      { MulAssoc(d1, k2, g); }
      (d1 * k2) * g;
    }
    JavaDivExact(d1 * k2, g);
    calc {
      d1 * k2;
      (k1 * g) * k2;
      { MulAssoc(k1, g, k2); }
      k1 * (g * k2);
      k1 * d2;
    }
  }

  /** Scaling a numerator by an exact multiple of its denominator. */
  lemma ExactScale(n: int, d: int, k: int)
    requires d != 0
    ensures JavaDiv(n * (d * k), d) == n * k
  {
    calc {
      n * (d * k);
      { MulAssoc(n, d, k); }
      (n * d) * k;
      (n * k) * d;
    }
    JavaDivExact(n * k, d);
  }

  /** lcm(d1, d2) is a positive common multiple no larger than d1*d2, and
      its product with gcd(d1, d2) is d1*d2. */
  lemma LcmFacts(d1: int, d2: int)
    requires d1 >= 1 && d2 >= 1
    ensures Gcd(d1, d2) > 0
    ensures var l := JavaDiv(d1 * d2, Gcd(d1, d2));
      l >= 1 && l % d1 == 0 && l % d2 == 0 && l <= d1 * d2
    ensures JavaDiv(d1 * d2, Gcd(d1, d2)) * Gcd(d1, d2) == d1 * d2
  {
    LcmShape(d1, d2);
    var g := Gcd(d1, d2);
    var k1, k2 := d1 / g, d2 / g;
    var l := JavaDiv(d1 * d2, g);
    assert l >= 1 by { MulAtLeast(d1, k2); }
    assert l == k2 * d1 && l == k1 * d2;
    MulDiv(k2, d1);
    MulDiv(k1, d2);
    assert l <= d1 * d2 by { MulMono(d1, k2, d2); }
    assert l * g == d1 * d2 by {
      GcdProperties(d1, d2);
      assert d2 == k2 * g;
      MulAssoc(d1, k2, g);
    }
  }

  /** Both scalings in Fraction.add are exact and the sum has the right value. */
  lemma SumValueFacts(n1: int, d1: int, n2: int, d2: int)
    requires d1 >= 1 && d2 >= 1
    ensures Gcd(d1, d2) > 0
    ensures var l := JavaDiv(d1 * d2, Gcd(d1, d2));
      l != 0 &&
      (JavaDiv(n1 * l, d1) + JavaDiv(n2 * l, d2)) as real / l as real
        == n1 as real / d1 as real + n2 as real / d2 as real
  {
    LcmShape(d1, d2);
    var g := Gcd(d1, d2);
    var k1, k2 := d1 / g, d2 / g;
    var l := JavaDiv(d1 * d2, g);
    ExactScale(n1, d1, k2);
    ExactScale(n2, d2, k1);
    SumOverCommon(n1, d1, k2, n2, d2, k1);
  }

  lemma SumOverCommon(n1: int, d1: int, k2: int, n2: int, d2: int, k1: int)
    requires d1 >= 1 && d2 >= 1 && k1 >= 1 && k2 >= 1 && d1 * k2 == d2 * k1
    ensures (n1 * k2 + n2 * k1) as real / (d1 * k2) as real
         == n1 as real / d1 as real + n2 as real / d2 as real
  {
    CancelReal(n1, d1, k2);
    CancelReal(n2, d2, k1);
    assert (n1 * k2 + n2 * k1) as real == (n1 * k2) as real + (n2 * k1) as real;
  }

  /** Dividing by g = gcd(n, d) is exact on both parts and keeps the
      denominator positive; for n = 0 the gcd is d itself. */
  lemma ReduceParts(n: int, d: int)
    requires d >= 1
    ensures Gcd(n, d) > 0
    ensures var g := Gcd(n, d);
      n == JavaDiv(n, g) * g && d == JavaDiv(d, g) * g && JavaDiv(d, g) >= 1 &&
      (n == 0 ==> g == d && JavaDiv(n, g) == 0 && JavaDiv(d, g) == 1)
  {
    GcdProperties(n, d);
    var g := Gcd(n, d);
    var kn, kd := n / g, d / g;
    assert n == kn * g && d == kd * g;
    JavaDivExact(kn, g);
    JavaDivExact(kd, g);
    assert kd >= 1;
    if n == 0 {
      assert g == NatGcd(0, d);
      JavaDivExact(0, d);
      JavaDivExact(1, d);
    }
  }

  /** The parts left after dividing by the gcd have no common factor. */
  lemma ReduceCoprime(n: int, d: int)
    requires d >= 1
    ensures Gcd(n, d) > 0
    ensures var g := Gcd(n, d); Gcd(JavaDiv(n, g), JavaDiv(d, g)) == 1
  {
    ReduceParts(n, d);
    var g := Gcd(n, d);
    var kn, kd := JavaDiv(n, g), JavaDiv(d, g);
    GcdProperties(kn, kd);
    var h := Gcd(kn, kd);
    assert h >= 1;
    var hg := h * g;
    assert hg >= g by { MulAtLeast(h, g); }
    assert n % hg == 0 by { ScaledDivisor(kn, h, g); }
    assert d % hg == 0 by { ScaledDivisor(kd, h, g); }
    CommonDivisorDividesGcd(n, d, hg);
    DivisorAtMost(hg, g);
    if h > 1 {
      MulMono(g, 2, h);
      assert false;
    }
  }

  /** If h divides k then h*g divides k*g. */
  lemma ScaledDivisor(k: int, h: int, g: int)
    requires h >= 1 && g >= 1 && k % h == 0
    ensures (k * g) % (h * g) == 0
  {
    var m := k / h;
    assert k == m * h;
    assert k * g == m * (h * g) by { MulAssoc(m, h, g); }
    MulAtLeast(h, g);
    MulDiv(m, h * g);
  }

  lemma ReduceValue(n: int, d: int)
    requires d >= 1
    ensures Gcd(n, d) > 0
    ensures var g := Gcd(n, d);
      JavaDiv(d, g) != 0 &&
      JavaDiv(n, g) as real / JavaDiv(d, g) as real == n as real / d as real
  {
    ReduceParts(n, d);
    var g := Gcd(n, d);
    CancelReal(JavaDiv(n, g), JavaDiv(d, g), g);
  }

  // -----------------------------------------------------------------------
  // Rendering in fraction mode

  /** The display types of Fraction.toString(int). */
  const PRINT_FRACTION := 1
  const PRINT_DECIMAL := 2
  const PRINT_BOTH := PRINT_FRACTION + PRINT_DECIMAL

  function DigitChar(d: int): char
    requires 0 <= d < 10
  {
    (d + '0' as int) as char
  }

  /** Decimal digits of a natural number, most significant first. */
  function NatText(n: nat): string
    decreases n
  {
    if n < 10 then [DigitChar(n)] else NatText(n / 10) + [DigitChar(n % 10)]
  }

  /** BigInteger.toString: a leading '-' for negative numbers. */
  function IntText(i: int): string {
    if i < 0 then "-" + NatText(-i) else NatText(i)
  }

  /** The fraction part of the rendering: "0" for a zero numerator, the bare
      numerator over a denominator of 1, "n/d" otherwise. */
  function FractionText(f: Frac): string {
    if f.num == 0 then "0"
    else if f.den == 1 then IntText(f.num)
    else IntText(f.num) + "/" + IntText(f.den)
  }

  // Reading the text back, to state what the rendering preserves.

  predicate IsDigit(c: char) {
    '0' <= c <= '9'
  }

  function DigitsValue(s: string): nat
    requires forall i :: 0 <= i < |s| ==> IsDigit(s[i])
  {
    if s == [] then 0
    else
      assert IsDigit(s[|s| - 1]);
      DigitsValue(s[..|s| - 1]) * 10 + (s[|s| - 1] as int - '0' as int)
  }

  function ParseNat(s: string): Option<nat> {
    if s != [] && forall i :: 0 <= i < |s| ==> IsDigit(s[i]) then Some(DigitsValue(s))
    else None
  }

  function ParseInt(s: string): Option<int> {
    if s != [] && s[0] == '-' then
      match ParseNat(s[1..])
      case Some(n) => Some(-(n as int))
      case None => None
    else
      match ParseNat(s)
      case Some(n) => Some(n)
      case None => None
  }

  /** The position of the first occurrence of c in s. */
  function IndexOf(s: string, c: char): (r: Option<nat>)
    ensures r.Some? ==> r.value < |s| && s[r.value] == c
    ensures r.Some? ==> forall j :: 0 <= j < r.value ==> s[j] != c
    ensures r.None? ==> forall j :: 0 <= j < |s| ==> s[j] != c
  {
    if s == [] then None
    else if s[0] == c then Some(0)
    else match IndexOf(s[1..], c)
      case Some(k) => Some(k + 1)
      case None => None
  }

  /** Reads "n" as n/1 and "n/d" as n/d. */
  function ParseFraction(s: string): Option<Frac> {
    match IndexOf(s, '/')
    case None =>
      (match ParseInt(s)
       case Some(n) => Some(Frac(n, 1))
       case None => None)
    case Some(k) =>
      (match (ParseInt(s[..k]), ParseInt(s[k + 1..]))
       case (Some(n), Some(d)) => Some(Frac(n, d))
       case _ => None)
  }

  lemma {:induction false} NatTextDigits(n: nat)
    ensures NatText(n) != []
    ensures forall i :: 0 <= i < |NatText(n)| ==> IsDigit(NatText(n)[i])
    ensures DigitsValue(NatText(n)) == n
    decreases n
  {
    if n >= 10 {
      NatTextDigits(n / 10);
      var s := NatText(n);
      assert s[..|s| - 1] == NatText(n / 10);
    }
  }

  lemma IntTextRoundTrip(i: int)
    ensures ParseInt(IntText(i)) == Some(i)
    ensures forall j :: 0 <= j < |IntText(i)| ==> IntText(i)[j] != '/'
  {
    if i < 0 {
      var t := NatText(-i);
      assert IntText(i) == "-" + t;
      assert IntText(i)[1..] == t;
      assert ParseNat(t) == Some(-i) by {
        NatTextDigits(-i);
      }
      NatTextDigits(-i);
    } else {
      var t := NatText(i);
      NatTextDigits(i);
      assert IsDigit(t[0]);
      assert ParseNat(t) == Some(i);
    }
  }

  lemma {:induction false} IndexOfSlash(a: string, b: string)
    requires forall j :: 0 <= j < |a| ==> a[j] != '/'
    ensures IndexOf(a + "/" + b, '/') == Some(|a|)
  {
    if a != [] {
      assert (a + "/" + b)[1..] == a[1..] + "/" + b;
      IndexOfSlash(a[1..], b);
    }
  }

  /** Reading back a fraction-mode rendering recovers the pair, except that
      every zero reads back as 0/1 (same value). */
  lemma FractionTextRoundTrip(f: Frac)
    ensures ParseFraction(FractionText(f)) == Some(if f.num == 0 then Frac(0, 1) else f)
  {
    if f.num == 0 {
      assert ParseNat("0") == Some(0);
    } else if f.den == 1 {
      var a := IntText(f.num);
      assert IndexOf(a, '/') == None && ParseInt(a) == Some(f.num) by {
        IntTextRoundTrip(f.num);
      }
    } else {
      var a, b := IntText(f.num), IntText(f.den);
      var s := a + "/" + b;
      assert FractionText(f) == s;
      assert IndexOf(s, '/') == Some(|a|) by {
        IntTextRoundTrip(f.num);
        IndexOfSlash(a, b);
      }
      assert s[..|a|] == a && s[|a| + 1..] == b;
      assert ParseInt(a) == Some(f.num) && ParseInt(b) == Some(f.den) by {
        IntTextRoundTrip(f.num);
        IntTextRoundTrip(f.den);
      }
    }
  }

  // -----------------------------------------------------------------------
  // The mutable fraction object

  /** fraction/Fraction.java: a numerator and a denominator that the methods
      update in place. */
  class Fraction {
    var numerator: int
    var denominator: int

    ghost predicate Valid()
      reads this
    {
      denominator >= 1
    }

    /** The value currently held. */
    function Get(): Frac
      reads this
    {
      Frac(numerator, denominator)
    }

    /** Fraction(long, long) once its denominator check has passed. */
    constructor (n: int, d: int)
      requires d >= 1
      ensures Valid() && Get() == Frac(n, d)
    {
      numerator := n;
      denominator := d;
    }

    /** Fraction(long, long): a denominator below 1 is rejected. */
    static method Create(n: int, d: int) returns (r: Result<Fraction>)
      ensures r.Ok? <==> d >= 1
      ensures r.Err? ==> r.error == InvalidArgument
      ensures r.Ok? ==> fresh(r.value) && r.value.Valid() && r.value.Get() == Frac(n, d)
    {
      if d < 1 {
        return Err(InvalidArgument);
      }
      var f := new Fraction(n, d);
      return Ok(f);
    }

    /** The copy constructor: same parts, a distinct object. */
    constructor Copy(obj: Fraction)
      requires obj.Valid()
      ensures Valid() && Get() == obj.Get()
    {
      numerator := obj.numerator;
      denominator := obj.denominator;
    }

    method SetNumerator(i: int)
      requires Valid()
      modifies this
      ensures Valid() && Get() == Frac(i, old(denominator))
    {
      numerator := i;
    }

    /** A denominator below 1 is rejected and leaves the fraction as it was. */
    method SetDenominator(i: int) returns (s: Status)
      requires Valid()
      modifies this
      ensures Valid()
      ensures s == Done <==> i >= 1
      ensures s.Failed? ==> s.error == InvalidArgument
      ensures Get() == if i >= 1 then Frac(old(numerator), i) else old(Get())
    {
      if i < 1 {
        return Failed(InvalidArgument);
      }
      denominator := i;
      return Done;
    }

    method Invert() returns (s: Status)
      requires Valid()
      modifies this
      ensures Valid()
      ensures var inv := Reciprocal(old(Get()));
        (inv.Ok? ==> s == Done && Get() == inv.value) &&
        (inv.Err? ==> s == Failed(inv.error) && Get() == old(Get()))
    {
      if numerator == 0 {
        return Failed(DivisionByZero);
      }
      var t := denominator;
      denominator := numerator;
      numerator := t;
      if denominator < 0 {
        denominator := -denominator;
        numerator := -numerator;
      }
      return Done;
    }

    /** Adds f in place; f may be this very object. */
    method Add(f: Fraction)
      requires Valid() && f.Valid()
      modifies this
      ensures Valid() && Get() == Sum(old(Get()), old(f.Get()))
    {
      LcmFacts(denominator, f.denominator);
      var lcm := JavaDiv(denominator * f.denominator, Gcd(denominator, f.denominator));
      numerator := JavaDiv(numerator * lcm, denominator) + JavaDiv(f.numerator * lcm, f.denominator);
      denominator := lcm;
    }

    /** Multiplies f in; f may be this very object. */
    method Multiply(f: Fraction)
      requires Valid() && f.Valid()
      modifies this
      ensures Valid() && Get() == Product(old(Get()), old(f.Get()))
    {
      numerator := numerator * f.numerator;
      denominator := denominator * f.denominator;
    }

    method Reduce()
      requires Valid()
      modifies this
      ensures Valid() && Get() == Reduced(old(Get()))
    {
      GcdProperties(numerator, denominator);
      var g := Gcd(numerator, denominator);
      numerator := JavaDiv(numerator, g);
      denominator := JavaDiv(denominator, g);
    }

    /** Fraction.toString(int). `decimal` stands for the decimal rendering
        of the value, which is outside this model; an unknown display type
        is an error. */
    function ToString(mode: int, decimal: string): (r: Result<string>)
      reads this
      ensures r.Ok? <==> mode == PRINT_FRACTION || mode == PRINT_DECIMAL || mode == PRINT_BOTH
      ensures r.Err? ==> r.error == InvalidArgument
      ensures mode == PRINT_FRACTION ==>
        r.Ok? && ParseFraction(r.value) == Some(if numerator == 0 then Frac(0, 1) else Get())
      ensures mode == PRINT_BOTH ==> r.Ok? && r.value == FractionText(Get()) + " (" + decimal + ")"
    {
      var frac := FractionText(Get());
      if mode == PRINT_FRACTION then
        FractionTextRoundTrip(Get());
        Ok(frac)
      else if mode == PRINT_DECIMAL then Ok(decimal)
      else if mode == PRINT_BOTH then Ok(frac + " (" + decimal + ")")
      else Err(InvalidArgument)
    }
  }
}

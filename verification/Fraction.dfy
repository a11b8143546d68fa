// The exact 64-bit fractions of dbase/math/fraction.cpp.

module Fractions {
  import opened Wrappers
  import opened NumberTheory
  import opened LowestTerms
  import opened Int64

  datatype Error = InvalidArgument | DomainError | OverflowError

  /** How a mutating operation ends: normally or with an exception. */
  datatype Outcome = Done | Thrown(error: Error)

  predicate LowestFits(p: int, q: int)
    requires q != 0
  {
    Fits(Lowest(p, q).0) && Fits(Lowest(p, q).1)
  }

  /** What normalize accepts: all but zero denominators, results that do not fit, and 2^63 over itself. */
  predicate Normalizable(n: int, d: int) {
    d != 0 && LowestFits(n, d) && !(n == MIN && d == MIN)
  }

  lemma TruncExact(p: int, g: int, p': int)
    requires g > 0 && p == g * p'
    ensures TruncDiv(p, g) == p'
  {
    MultipleDivides(g, p');
    MultipleDivides(g, -p');
    assert -p == g * -p';
  }

  lemma SmallerFactor(p: int, g: int, p': int)
    requires g > 0 && p == g * p'
    ensures p' >= 0 <==> p >= 0
    ensures Abs(p') <= Abs(p)
    ensures Fits(p) ==> Fits(p')
    ensures p' != 0 ==> g <= Abs(p)
  {
    FactorSigns(p', -p', g);
    assert Abs(p) == g * Abs(p');
    NatFactor(g, Abs(p'));
  }

  lemma NatFactor(g: int, m: nat)
    requires g > 0
    ensures m <= g * m && (m > 0 ==> g <= g * m)
  {
    AtLeastOneFactor(g, m);
    if m > 0 {
      AtLeastOneFactor(m, g);
    }
  }

  /** The cast of the divisor fails only when both numbers are the most negative one. */
  lemma HugeGcd(n: int, d: int)
    requires Fits(n) && Fits(d) && n != 0 && d != 0
    ensures Gcd(Abs(n), Abs(d)) > MAX <==> n == MIN && d == MIN
    ensures SafeCast(Gcd(Abs(n), Abs(d))) == None <==> n == MIN && d == MIN
  {
    var g, p, q := GcdFactor(n, d);
    SmallerFactor(n, g, p);
    SmallerFactor(d, g, q);
    if n == MIN && d == MIN {
      SameGcd(-MIN);
    }
  }

  lemma SameGcd(a: nat)
    requires a > 0
    ensures Gcd(a, a) == a
  {
    assert a % a == 0;
  }

  lemma LowestOfZero(q: int)
    requires q != 0
    ensures Lowest(0, q) == (0, 1)
  {
    LowestUnique(0, 1, 0, q);
  }

  /** The quotient by the divisor, and what the sign of the denominator makes of it. */
  lemma Divided(n: int, d: int) returns (n': int, d': int)
    requires Fits(n) && Fits(d) && n != 0 && d != 0
    ensures var g := Gcd(Abs(n), Abs(d));
            && g > 0 && n' == TruncDiv(n, g) && d' == TruncDiv(d, g) && Fits(n') && Fits(d') && d' != 0
            && Lowest(n, d) == (if d' < 0 then (-n', -d') else (n', d'))
            && (d > 0 ==> d' > 0)
  {
    var g;
    g, n', d' := GcdFactor(n, d);
    TruncExact(n, g, n');
    TruncExact(d, g, d');
    SmallerFactor(n, g, n');
    SmallerFactor(d, g, d');
  }

  lemma LowestValid(p: int, q: int)
    requires q != 0
    ensures Lowest(p, q).1 > 0 && Gcd(Abs(Lowest(p, q).0), Lowest(p, q).1) == 1
  {
    LowestRepresents(p, q);
  }

  lemma PositiveNormalizable(n: int, d: int)
    requires Fits(n) && Fits(d) && d > 0
    ensures Normalizable(n, d)
  {
    if n == 0 {
      LowestOfZero(d);
    } else {
      var n', d' := Divided(n, d);
    }
  }

  /** The sum over the common denominator `m`: all that is computed on the way is a 64-bit value. */
  predicate SumOver(m: int, n1: int, d1: nat, n2: int, d2: nat)
    requires d1 > 0 && d2 > 0
  {
    && m > 0 && m % d1 == 0 && m % d2 == 0 && Fits(m)
    && Fits(n1 * (m / d1)) && Fits(n2 * (m / d2)) && Fits(n1 * (m / d1) + n2 * (m / d2))
  }

  /** The difference over the common denominator `m`; the subtrahend must also have a 64-bit negation. */
  predicate DifferenceOver(m: int, n1: int, d1: nat, n2: int, d2: nat)
    requires d1 > 0 && d2 > 0
  {
    && m > 0 && m % d1 == 0 && m % d2 == 0 && Fits(m)
    && Fits(n1 * (m / d1)) && Fits(n2 * (m / d2)) && n2 * (m / d2) != MIN && Fits(n1 * (m / d1) - n2 * (m / d2))
  }

  /** When the sum is computed without overflow: some common denominator serves. */
  ghost predicate SumFits(n1: int, d1: nat, n2: int, d2: nat)
    requires d1 > 0 && d2 > 0
  {
    exists m :: SumOver(m, n1, d1, n2, d2)
  }

  /** When the difference is computed without overflow: some common denominator serves. */
  ghost predicate DifferenceFits(n1: int, d1: nat, n2: int, d2: nat)
    requires d1 > 0 && d2 > 0
  {
    exists m :: DifferenceOver(m, n1, d1, n2, d2)
  }

  /** A common denominator is a multiple of d1 * l. */
  lemma MultipleOfBoth(d1: nat, d2: nat, g: nat, l: nat, r: nat, m: int) returns (k: int)
    requires d1 > 0 && d2 > 0 && g == Gcd(d1, d2) > 0 && d1 == g * r && d2 == g * l && l > 0
    requires m > 0 && m % d1 == 0 && m % d2 == 0
    ensures k >= 1 && m == k * (d1 * l) && m / d1 == k * l && m / d2 == k * r
  {
    var x, y := ReducedCoprime(d1, d2);
    MultipleDivides(g, r);
    MultipleDivides(g, l);
    DivMod(m, d1);
    DivMod(m, d2);
    hide Gcd;
    k := CrossFactor(g, l, r, m / d1, m / d2, x, y);
    AtLeastOneFactor(l, k);
    Reordered(d1, l, k);
  }

  lemma CrossFactor(g: nat, l: nat, r: nat, a: int, b: int, x: int, y: int) returns (k: int)
    requires g > 0 && l > 0 && r * x + l * y == 1 && (g * r) * a == (g * l) * b
    ensures a == k * l && b == k * r
  {
    assert g * (r * a) == g * (l * b);
    CancelFactor(g, r * a, l * b);
    MultipleDivides(l, b);
    k := CoprimeDivides(l, r, a, y, x);
    assert l * b == l * (r * k);
    CancelFactor(l, b, r * k);
  }

  lemma SmallestMultiple(d1: nat, d2: nat, g: nat, l: nat, r: nat)
    requires d1 > 0 && d2 > 0 && g > 0 && d1 == g * r && d2 == g * l && l > 0
    ensures d1 * l > 0 && (d1 * l) % d1 == 0 && (d1 * l) % d2 == 0 && d1 * l / d1 == l && d1 * l / d2 == r
  {
    AtLeastOneFactor(d1, l);
    MultipleDivides(d1, l);
    assert d1 * l == d2 * r;
    MultipleDivides(d2, r);
  }

  /** A number whose multiple is a 64-bit value is one itself. */
  lemma FitsBelow(x: int, k: int, y: int)
    requires k >= 1 && y == x * k
    ensures Fits(y) ==> Fits(x) && (x == MIN ==> y == MIN)
  {
    if x >= 0 {
      NatFactor(k, x);
    } else {
      NatFactor(k, -x);
      assert k * -x == -y;
    }
  }

  lemma FactorsBelow(n1: int, l: int, n2: int, r: int, k: int)
    requires k >= 1
    ensures n1 * (k * l) == (n1 * l) * k && n2 * (k * r) == (n2 * r) * k
    ensures n1 * (k * l) + n2 * (k * r) == (n1 * l + n2 * r) * k
    ensures n1 * (k * l) - n2 * (k * r) == (n1 * l - n2 * r) * k
  {
  }

  /** The least common denominator serves if any does. */
  lemma LeastServes(n1: int, d1: nat, n2: int, d2: nat, g: nat, l: nat, r: nat)
    requires d1 > 0 && d2 > 0 && g == Gcd(d1, d2) > 0 && d1 == g * r && d2 == g * l && l > 0
    ensures SumFits(n1, d1, n2, d2) <==>
              Fits(n1 * l) && Fits(n2 * r) && Fits(n1 * l + n2 * r) && Fits(d1 * l)
    ensures DifferenceFits(n1, d1, n2, d2) <==>
              Fits(n1 * l) && Fits(n2 * r) && n2 * r != MIN && Fits(n1 * l - n2 * r) && Fits(d1 * l)
  {
    SmallestMultiple(d1, d2, g, l, r);
    hide Gcd, Fits;
    if Fits(n1 * l) && Fits(n2 * r) && Fits(d1 * l) {
      assert Fits(n1 * l + n2 * r) ==> SumOver(d1 * l, n1, d1, n2, d2);
      assert n2 * r != MIN && Fits(n1 * l - n2 * r) ==> DifferenceOver(d1 * l, n1, d1, n2, d2);
    }
    if m :| SumOver(m, n1, d1, n2, d2) {
      var k := MultipleOfBoth(d1, d2, g, l, r, m);
      FactorsBelow(n1, l, n2, r, k);
      FitsBelow(d1 * l, k, m);
      FitsBelow(n1 * l, k, n1 * (k * l));
      FitsBelow(n2 * r, k, n2 * (k * r));
      FitsBelow(n1 * l + n2 * r, k, n1 * (k * l) + n2 * (k * r));
    }
    if m :| DifferenceOver(m, n1, d1, n2, d2) {
      var k := MultipleOfBoth(d1, d2, g, l, r, m);
      FactorsBelow(n1, l, n2, r, k);
      FitsBelow(d1 * l, k, m);
      FitsBelow(n1 * l, k, n1 * (k * l));
      FitsBelow(n2 * r, k, n2 * (k * r));
      FitsBelow(n1 * l - n2 * r, k, n1 * (k * l) - n2 * (k * r));
    }
  }

  lemma CommonFactor(d1: nat, d2: nat) returns (g: nat, l: nat, r: nat)
    requires d1 > 0 && d2 > 0
    ensures g == Gcd(d1, d2) && 0 < g <= d2 && l == d2 / g && r == d1 / g
    ensures d1 == g * r && d2 == g * l && 0 < l <= d2 && 0 < r <= d1
  {
    var p, q;
    g, p, q := GcdFactor(d1, d2);
    SmallerFactor(d1, g, p);
    SmallerFactor(d2, g, q);
    l, r := q, p;
  }

  /** The common denominator: the scaled sum is the exact one. */
  lemma CommonDenominator(n1: int, d1: nat, n2: int, d2: nat) returns (g: nat, l: nat, r: nat)
    requires d1 > 0 && d2 > 0
    ensures g == Gcd(d1, d2) && 0 < g <= d2 && l == d2 / g && r == d1 / g
    ensures d1 == g * r && d2 == g * l && 0 < l <= d2 && 0 < r <= d1 && d1 * l > 0
    ensures d1 * d2 != 0
    ensures Lowest(n1 * l + n2 * r, d1 * l) == Lowest(n1 * d2 + n2 * d1, d1 * d2)
  {
    hide Gcd, Lowest;
    g, l, r := CommonFactor(d1, d2);
    AtLeastOneFactor(d1, l);
    AtLeastOneFactor(d1, d2);
    SumScaled(n1, d1, n2, d2, g, l, r);
  }

  lemma NegatedFactor(n: int, r: int, d: int)
    ensures -n * r == -(n * r) && -n * d == -(n * d)
  {
  }

  lemma SumScaled(n1: int, d1: int, n2: int, d2: int, g: int, l: int, r: int)
    requires d1 == g * r && d2 == g * l && g > 0 && d1 * l != 0 && d1 * d2 != 0
    ensures Lowest(n1 * l + n2 * r, d1 * l) == Lowest(n1 * d2 + n2 * d1, d1 * d2)
  {
    hide Gcd, Lowest;
    ScaledSum(n1, d1, n2, d2, g, l, r);
    LowestScaled(n1 * l + n2 * r, d1 * l, g, n1 * d2 + n2 * d1, d1 * d2);
  }

  lemma ScaledSum(n1: int, d1: int, n2: int, d2: int, g: int, l: int, r: int)
    requires d1 == g * r && d2 == g * l
    ensures n1 * d2 + n2 * d1 == (n1 * l + n2 * r) * g && d1 * d2 == (d1 * l) * g
  {
    assert n1 * (g * l) == (n1 * l) * g && n2 * (g * r) == (n2 * r) * g;
  }

  /** Cross-cancelling leaves the product in lowest terms. */
  lemma CrossCancelled(n1: int, d1: int, n2: int, d2: int, g1: int, g2: int, a: int, b: int, c: int, d: int)
    requires d1 > 0 && d2 != 0 && Gcd(Abs(n1), Abs(d1)) == 1 && Gcd(Abs(n2), Abs(d2)) == 1
    requires g1 > 0 && n1 == g1 * a && d2 == g1 * d && Gcd(Abs(a), Abs(d)) == 1
    requires g2 > 0 && n2 == g2 * c && d1 == g2 * b && Gcd(Abs(c), Abs(b)) == 1
    ensures Gcd(Abs(a * c), Abs(b * d)) == 1
    ensures (a * c) * (d1 * d2) == (n1 * n2) * (b * d)
  {
    CoprimeFactors(n1, d1, g1, g2, a, b);
    CoprimeFactors(n2, d2, g2, g1, c, d);
    hide Gcd, Abs;
    CoprimeProducts(a, b, c, d);
    CrossProduct(g1, g2, a, b, c, d);
  }

  lemma CrossProduct(g1: int, g2: int, a: int, b: int, c: int, d: int)
    ensures (a * c) * ((g2 * b) * (g1 * d)) == ((g1 * a) * (g2 * c)) * (b * d)
  {
    assert (g2 * b) * (g1 * d) == (g1 * g2) * (b * d);
    assert (g1 * a) * (g2 * c) == (g1 * g2) * (a * c);
    assert (a * c) * ((g1 * g2) * (b * d)) == ((g1 * g2) * (a * c)) * (b * d);
  }

  lemma CoprimeFactors(n: int, d: int, g: int, h: int, a: int, b: int)
    requires Gcd(Abs(n), Abs(d)) == 1 && n == g * a && d == h * b
    ensures Gcd(Abs(a), Abs(b)) == 1
  {
    var u, v := CoprimeWitness(n, d);
    hide Gcd, Abs;
    Reordered(g, a, u);
    Reordered(h, b, v);
    CoprimeAbs(a, b, g * u, h * v);
  }

  lemma Reordered(g: int, a: int, u: int)
    ensures (g * a) * u == a * (g * u)
  {
  }

  /** The numbers the product is computed from, for a second factor of either sign. */
  lemma CrossReduced(n1: int, d1: int, n2: int, d2: int) returns (a: int, b: int, c: int, d: int)
    requires Fits(n1) && Fits(d1) && Fits(n2) && Fits(d2) && d1 > 0 && d2 != 0
    requires Gcd(Abs(n1), Abs(d1)) == 1 && Gcd(Abs(n2), Abs(d2)) == 1
    ensures var g1, g2 := Gcd(Abs(n1), Abs(d2)), Gcd(Abs(n2), Abs(d1));
            && g1 > 0 && g2 > 0
            && a == TruncDiv(n1, g1) && d == TruncDiv(d2, g1) && c == TruncDiv(n2, g2) && b == TruncDiv(d1, g2)
            && n1 == g1 * a && d2 == g1 * d && n2 == g2 * c && d1 == g2 * b
    ensures Fits(a) && Fits(b) && Fits(c) && Fits(d) && b > 0 && (d > 0 <==> d2 > 0) && d != 0
    ensures Gcd(Abs(a * c), Abs(b * d)) == 1 && (a * c) * (d1 * d2) == (n1 * n2) * (b * d)
  {
    var g1, g2;
    g1, a, d := GcdFactor(n1, d2);
    g2, c, b := GcdFactor(n2, d1);
    TruncExact(n1, g1, a);
    TruncExact(d2, g1, d);
    TruncExact(n2, g2, c);
    TruncExact(d1, g2, b);
    SmallerFactor(n1, g1, a);
    SmallerFactor(d2, g1, d);
    SmallerFactor(n2, g2, c);
    SmallerFactor(d1, g2, b);
    hide Gcd, TruncDiv;
    CrossCancelled(n1, d1, n2, d2, g1, g2, a, b, c, d);
  }

  lemma NonZeroProduct(a: int, b: int)
    requires a > 0 && b != 0
    ensures a * b != 0 && (a * b > 0 <==> b > 0)
  {
    AtLeastOneFactor(a, b);
  }

  /** A cross-cancelled product needs no further reduction, only the sign moved to the numerator. */
  lemma CrossLowest(n1: int, d1: int, n2: int, d2: int, p: int, q: int)
    requires d1 > 0 && d2 != 0 && q != 0 && (q > 0 <==> d2 > 0)
    requires Gcd(Abs(p), Abs(q)) == 1 && p * (d1 * d2) == (n1 * n2) * q
    ensures d1 * d2 != 0
    ensures Lowest(n1 * n2, d1 * d2) == Lowest(p, q) == if d2 > 0 then (p, q) else (-p, -q)
  {
    NonZeroProduct(d1, d2);
    var n, d := if q > 0 then p else -p, if q > 0 then q else -q;
    hide Gcd, Lowest;
    assert -p * q == p * -q && -p * (d1 * d2) == -(p * (d1 * d2)) && (n1 * n2) * -q == -((n1 * n2) * q);
    LowestUnique(n, d, n1 * n2, d1 * d2);
    LowestUnique(n, d, p, q);
  }

  /** What the product computes: its parts p and q before normalization. */
  lemma Product(n1: int, d1: int, n2: int, d2: int) returns (p: int, q: int)
    requires Fits(n1) && Fits(d1) && Fits(n2) && Fits(d2) && d1 > 0 && d2 != 0
    requires Gcd(Abs(n1), Abs(d1)) == 1 && Gcd(Abs(n2), Abs(d2)) == 1
    ensures var g1, g2 := Gcd(Abs(n1), Abs(d2)), Gcd(Abs(n2), Abs(d1));
            && g1 > 0 && g2 > 0
            && Fits(TruncDiv(n1, g1)) && Fits(TruncDiv(d2, g1)) && Fits(TruncDiv(n2, g2)) && Fits(TruncDiv(d1, g2))
            && p == TruncDiv(n1, g1) * TruncDiv(n2, g2) && q == TruncDiv(d1, g2) * TruncDiv(d2, g1)
    ensures q != 0 && (q > 0 <==> d2 > 0) && d1 * d2 != 0
    ensures Lowest(n1 * n2, d1 * d2) == Lowest(p, q) == if d2 > 0 then (p, q) else (-p, -q)
    ensures !(p == MIN && q == MIN)
  {
    hide Gcd, Lowest, TruncDiv;
    var a, b, c, d := CrossReduced(n1, d1, n2, d2);
    p, q := a * c, b * d;
    NonZeroProduct(b, d);
    CrossLowest(n1, d1, n2, d2, p, q);
    NotBothMin(p, q);
  }

  lemma NotBothMin(p: int, q: int)
    requires Gcd(Abs(p), Abs(q)) == 1
    ensures !(p == MIN && q == MIN)
  {
    SameGcd(-MIN);
  }

  /** When the quotient is computed without overflow: the reduced quotient fits, and it is neither -2^63 got from a
      negative divisor nor the quotient of two numerators of -2^63. */
  predicate QuotientFits(n1: int, d1: int, n2: int, d2: int)
    requires d1 * n2 != 0
  {
    && LowestFits(n1 * d2, d1 * n2)
    && !(n2 < 0 && Lowest(n1 * d2, d1 * n2).0 == MIN)
    && !(n1 == MIN && n2 == MIN)
  }

  const HALF: int := 0x4000_0000_0000_0000  // 2^62

  /** Each refusal that is stricter than the result: values that fit, and still an overflow is reported. */
  lemma RefusedThoughFitting()
    ensures LowestFits(MIN, MIN) && !Normalizable(MIN, MIN)
    ensures LowestFits(MAX * 3 + -MAX * 2, 2 * 3) && !SumFits(MAX, 2, -MAX, 3)
    ensures LowestFits(-1 * 1 - MIN * 1, 1 * 1) && !DifferenceFits(-1, 1, MIN, 1)
    ensures LowestFits(MIN * 1, 1 * MIN) && !QuotientFits(MIN, 1, MIN, 1)
    ensures LowestFits(HALF * 2, 1 * -1) && !QuotientFits(HALF, 1, -1, 2)
  {
    SameGcd(-MIN);
    assert Gcd(MAX, 6) == Gcd(6, 1) == Gcd(1, 0) == 1;
    assert Gcd(2, 3) == Gcd(3, 2) == Gcd(2, 1) == Gcd(1, 0) == 1;
    assert Gcd(1, 1) == Gcd(1, 0) == 1;
    assert Gcd(MAX, 1) == Gcd(1, 0) == 1;
    assert Gcd(HALF * 2, 1) == Gcd(1, 0) == 1;
    LeastServes(MAX, 2, -MAX, 3, 1, 3, 2);
    LeastServes(-1, 1, MIN, 1, 1, 1, 1);
  }

  class Fraction {
    var num: int
    var den: int

    /** In lowest terms with a positive denominator, both parts 64-bit values. */
    predicate Valid()
      reads this
    {
      Fits(num) && Fits(den) && den > 0 && Gcd(Abs(num), den) == 1
    }

    constructor Raw(num: int, den: int)
      ensures this.num == num && this.den == den
    {
      this.num, this.den := num, den;
    }

    /** The constructor from numerator and denominator. */
    static method Make(numerator: int, denominator: int) returns (r: Result<Fraction, Error>)
      requires Fits(numerator) && Fits(denominator)
      ensures r.Success? <==> Normalizable(numerator, denominator)
      ensures r.Success? ==>
                fresh(r.value) && r.value.Valid() && (r.value.num, r.value.den) == Lowest(numerator, denominator)
      ensures r.Failure? ==> r.error == if denominator == 0 then InvalidArgument else OverflowError
    {
      var f := new Fraction.Raw(numerator, denominator);
      var o := f.Normalize();
      return match o case Done => Success(f) case Thrown(e) => Failure(e);
    }

    method Normalize() returns (o: Outcome)
      requires Fits(num) && Fits(den)
      modifies this
      ensures o.Done? <==> Normalizable(old(num), old(den))
      ensures o.Done? ==> Valid() && (num, den) == Lowest(old(num), old(den))
      ensures o.Thrown? ==> o.error == if old(den) == 0 then InvalidArgument else OverflowError
    {
      hide Lowest, Gcd;
      if den == 0 {
        return Thrown(InvalidArgument);
      }
      LowestValid(num, den);
      if num == 0 {
        LowestOfZero(den);
        den := 1;
        return Done;
      }
      HugeGcd(num, den);
      var n', d' := Divided(num, den);
      var gU := ComputeGcd(AbsToUint64(num), AbsToUint64(den));
      var g := SafeCast(gU);
      if g.None? {
        return Thrown(OverflowError);
      }
      num, den := TruncDiv(num, g.value), TruncDiv(den, g.value);
      if den < 0 {
        if den == MIN {
          return Thrown(OverflowError);
        }
        var negated := SafeNegate(num);
        if negated.None? {
          return Thrown(OverflowError);
        }
        num := negated.value;
        den := -den;
      }
      return Done;
    }

    /** operator+=. */
    method Add(other: Fraction) returns (o: Outcome)
      requires Valid() && other.Valid()
      modifies this
      ensures o.Done? <==> SumFits(old(num), old(den), old(other.num), old(other.den))
      ensures o.Done? ==> Valid() && (num, den) ==
                          Lowest(old(num) * old(other.den) + old(other.num) * old(den), old(den) * old(other.den))
      ensures o.Thrown? ==> o.error == OverflowError && num == old(num) && den == old(den)
    {
      hide Lowest, Gcd, SumFits;
      var g', l', r' := CommonDenominator(num, den, other.num, other.den);
      LeastServes(num, den, other.num, other.den, g', l', r');
      var g := ComputeGcd(AbsToUint64(den), AbsToUint64(other.den));
      var leftMul, rightMul := TruncDiv(other.den, g), TruncDiv(den, g);
      var left, right := SafeMul(num, leftMul), SafeMul(other.num, rightMul);
      if left.None? || right.None? {
        return Thrown(OverflowError);
      }
      var newNum, newDen := SafeAdd(left.value, right.value), SafeMul(den, leftMul);
      if newNum.None? || newDen.None? {
        return Thrown(OverflowError);
      }
      num, den := newNum.value, newDen.value;
      PositiveNormalizable(num, den);
      o := Normalize();
    }

    /** operator-=. */
    method Subtract(other: Fraction) returns (o: Outcome)
      requires Valid() && other.Valid()
      modifies this
      ensures o.Done? <==> DifferenceFits(old(num), old(den), old(other.num), old(other.den))
      ensures o.Done? ==> Valid() && (num, den) ==
                          Lowest(old(num) * old(other.den) - old(other.num) * old(den), old(den) * old(other.den))
      ensures o.Thrown? ==> o.error == OverflowError && num == old(num) && den == old(den)
    {
      hide Lowest, Gcd, DifferenceFits;
      var g', l', r' := CommonDenominator(num, den, -other.num, other.den);
      LeastServes(num, den, other.num, other.den, g', l', r');
      NegatedFactor(other.num, r', den);
      var g := ComputeGcd(AbsToUint64(den), AbsToUint64(other.den));
      var leftMul, rightMul := TruncDiv(other.den, g), TruncDiv(den, g);
      var left, right := SafeMul(num, leftMul), SafeMul(other.num, rightMul);
      if left.None? || right.None? {
        return Thrown(OverflowError);
      }
      var newNum, newDen := SafeSub(left.value, right.value), SafeMul(den, leftMul);
      if newNum.None? || newDen.None? {
        return Thrown(OverflowError);
      }
      num, den := newNum.value, newDen.value;
      PositiveNormalizable(num, den);
      o := Normalize();
    }

    /** operator*=: throws exactly when the reduced product does not fit. */
    method Multiply(other: Fraction) returns (o: Outcome)
      requires Valid() && other.Valid()
      modifies this
      ensures old(den) * old(other.den) != 0
      ensures o.Done? <==> LowestFits(old(num) * old(other.num), old(den) * old(other.den))
      ensures o.Done? ==> Valid() && (num, den) == Lowest(old(num) * old(other.num), old(den) * old(other.den))
      ensures o.Thrown? ==> o.error == OverflowError
    {
      hide Lowest, Gcd, TruncDiv;
      NonZeroProduct(den, other.den);
      if num == 0 || other.num == 0 {
        LowestOfZero(den * other.den);
        LowestValid(0, den * other.den);
        num, den := 0, 1;
        return Done;
      }
      var a, b, c, d := num, den, other.num, other.den;
      ghost var p, q := Product(a, b, c, d);
      HugeGcd(a, d);
      HugeGcd(c, b);
      var g1 := ComputeGcd(AbsToUint64(a), AbsToUint64(d));
      a, d := TruncDiv(a, g1), TruncDiv(d, g1);
      var g2 := ComputeGcd(AbsToUint64(c), AbsToUint64(b));
      c, b := TruncDiv(c, g2), TruncDiv(b, g2);
      var newNum := SafeMul(a, c);
      if newNum.None? {
        return Thrown(OverflowError);
      }
      num := newNum.value;
      var newDen := SafeMul(b, d);
      if newDen.None? {
        return Thrown(OverflowError);
      }
      den := newDen.value;
      PositiveNormalizable(num, den);
      o := Normalize();
    }

    /** operator/=. */
    method Divide(other: Fraction) returns (o: Outcome)
      requires Valid() && other.Valid()
      modifies this
      ensures old(other.num) == 0 ==> o == Thrown(DomainError) && num == old(num) && den == old(den)
      ensures old(other.num) != 0 ==> old(den) * old(other.num) != 0
      ensures old(other.num) != 0 ==> (o.Done? <==> QuotientFits(old(num), old(den), old(other.num), old(other.den)))
      ensures o.Done? ==> Valid() && (num, den) == Lowest(old(num) * old(other.den), old(den) * old(other.num))
      ensures old(other.num) != 0 && o.Thrown? ==> o.error == OverflowError
    {
      hide Lowest, Gcd, TruncDiv;
      if other.num == 0 {
        return Thrown(DomainError);
      }
      NonZeroProduct(den, other.num);
      if num == 0 {
        LowestOfZero(den * other.num);
        LowestValid(0, den * other.num);
        den := 1;
        return Done;
      }
      var a, b, c, d := num, den, other.num, other.den;
      GcdSymmetric(c, d);
      ghost var p, q := Product(a, b, d, c);
      LowestValid(a * d, b * c);
      HugeGcd(a, c);
      HugeGcd(d, b);
      var g1 := ComputeGcd(AbsToUint64(a), AbsToUint64(c));
      if SafeCast(g1).None? {
        return Thrown(OverflowError);
      }
      a, c := TruncDiv(a, g1), TruncDiv(c, g1);
      var g2 := ComputeGcd(AbsToUint64(d), AbsToUint64(b));
      d, b := TruncDiv(d, g2), TruncDiv(b, g2);
      var newNum := SafeMul(a, d);
      if newNum.None? {
        return Thrown(OverflowError);
      }
      num := newNum.value;
      var newDen := SafeMul(b, c);
      if newDen.None? {
        return Thrown(OverflowError);
      }
      den := newDen.value;
      o := Normalize();
    }
  }

  lemma GcdSymmetric(c: int, d: int)
    requires Gcd(Abs(c), Abs(d)) == 1
    ensures Gcd(Abs(d), Abs(c)) == 1
  {
    var u, v := CoprimeWitness(c, d);
    hide Gcd, Abs;
    CoprimeAbs(d, c, v, u);
  }
}

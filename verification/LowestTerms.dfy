// Rational numbers in lowest terms, over unbounded integers.

module LowestTerms {
  import opened NumberTheory

  function Abs(x: int): nat {
    if x >= 0 then x else -x
  }

  /** n / d is p / q in lowest terms with a positive denominator. */
  predicate Represents(n: int, d: int, p: int, q: int) {
    d > 0 && Gcd(Abs(n), d) == 1 && n * q == p * d
  }

  function Lowest(p: int, q: int): (int, int)
    requires q != 0
  {
    var g := Gcd(Abs(p), Abs(q));
    if q > 0 then (p / g, q / g) else (-(p / g), -(q / g))
  }

  lemma AbsProduct(x: int, y: int, g: int)
    requires g > 0 && Abs(x) == g * y
    ensures x == g * (if x >= 0 then y else -y)
  {
  }

  /** The greatest common divisor divides numbers of either sign. */
  lemma GcdFactor(p: int, q: int) returns (g: int, p': int, q': int)
    requires q != 0
    ensures g == Gcd(Abs(p), Abs(q)) && 0 < g <= Abs(q)
    ensures p == g * p' && q == g * q' && p' == p / g && q' == q / g && q' != 0
    ensures Gcd(Abs(p'), Abs(q')) == 1
  {
    g := Gcd(Abs(p), Abs(q));
    var u, v := ReducedCoprime(Abs(p), Abs(q));
    var a, b := Abs(p) / g, Abs(q) / g;
    AbsProduct(p, a, g);
    AbsProduct(q, b, g);
    p', q' := if p >= 0 then a else -a, if q >= 0 then b else -b;
    MultipleDivides(g, p');
    MultipleDivides(g, q');
    AtLeastOneFactor(g, b);
    hide Gcd;
    FactorSigns(a, b, g);
    WitnessCoprime(a, b, u, v);
  }

  lemma FactorSigns(a: int, b: int, g: int)
    requires g > 0
    ensures (g * a >= 0 ==> a >= 0) && (g * b > 0 ==> b > 0)
  {
    AtLeastOneFactor(g, a);
    AtLeastOneFactor(g, b);
  }

  /** Numbers with an integer combination of 1 are coprime. */
  lemma WitnessCoprime(a: nat, b: nat, u: int, v: int)
    requires a * u + b * v == 1
    ensures Gcd(a, b) == 1
  {
    assert a > 0 || b > 0;
    var g := Gcd(a, b);
    GcdDivides(a, b);
    DivMod(a, g);
    DivMod(b, g);
    hide Gcd;
    FactorOfOne(g, a / g, b / g, u, v);
  }

  lemma FactorOfOne(g: int, p: int, q: int, u: int, v: int)
    requires g > 0 && (g * p) * u + (g * q) * v == 1
    ensures g == 1
  {
    Distributes(g, p, q, u, v);
    var k := p * u + q * v;
    AtLeastOneFactor(g, k);
    AtLeastOneFactor(g, k - 1);
  }

  lemma Distributes(g: int, p: int, q: int, u: int, v: int)
    ensures g * (p * u + q * v) == (g * p) * u + (g * q) * v
  {
    assert g * (p * u) == (g * p) * u && g * (q * v) == (g * q) * v;
  }

  /** Coprime numbers of either sign have an integer combination of 1. */
  lemma CoprimeWitness(a: int, b: int) returns (u: int, v: int)
    requires Gcd(Abs(a), Abs(b)) == 1
    ensures a * u + b * v == 1
  {
    u, v := Bezout(Abs(a), Abs(b));
    if a < 0 {
      u := -u;
    }
    if b < 0 {
      v := -v;
    }
  }

  lemma CoprimeAbs(a: int, b: int, u: int, v: int)
    requires a * u + b * v == 1
    ensures Gcd(Abs(a), Abs(b)) == 1
  {
    hide Gcd;
    WitnessCoprime(Abs(a), Abs(b), if a >= 0 then u else -u, if b >= 0 then v else -v);
  }

  lemma LowestRepresents(p: int, q: int)
    requires q != 0
    ensures Represents(Lowest(p, q).0, Lowest(p, q).1, p, q)
  {
    var g, p', q' := GcdFactor(p, q);
    FactorSigns(q', -q', g);
    hide Gcd;
    assert Lowest(p, q) == if q > 0 then (p', q') else (-p', -q');
    CrossCancel(g, p', q');
  }

  lemma CrossCancel(g: int, p': int, q': int)
    ensures p' * (g * q') == (g * p') * q' && -p' * (g * q') == (g * p') * -q'
  {
  }

  /** A positive number that divides another positive one both ways is equal to it. */
  lemma MutualDivisors(a: int, b: int, s: int, t: int)
    requires a > 0 && b > 0 && a == b * s && b == a * t
    ensures a == b
  {
    AtLeastOneFactor(b, s);
    AtLeastOneFactor(a, t);
  }

  /** Lowest terms are unique. */
  lemma RepresentsUnique(n: int, d: int, n': int, d': int, p: int, q: int)
    requires q != 0 && Represents(n, d, p, q) && Represents(n', d', p, q)
    ensures n == n' && d == d'
  {
    var m := CrossRatio(n, d, n', d', p, q);
    var u, v := CoprimeWitness(n, d);
    var u', v' := CoprimeWitness(n', d');
    hide Gcd;
    var s := DenominatorDivides(n, d, n', d', u, v);
    var t := DenominatorDivides(n', d', n, d, u', v');
    MutualDivisors(d, d', t, s);
    CancelFactor(d, n, n');
  }

  lemma CrossRatio(n: int, d: int, n': int, d': int, p: int, q: int) returns (m: int)
    requires q != 0 && n * q == p * d && n' * q == p * d'
    ensures n * d' == n' * d && m == n * d'
  {
    m := n * d';
    var k := n * d' - n' * d;
    assert q * k == (n * q) * d' - (n' * q) * d == (p * d) * d' - (p * d') * d == 0;
    AtLeastOneFactor(Abs(q), k);
    assert Abs(q) * k == 0;
  }

  lemma DenominatorDivides(n: int, d: int, n': int, d': int, u: int, v: int) returns (s: int)
    requires n * u + d * v == 1 && n * d' == n' * d
    ensures d' == d * s
  {
    s := n' * u + d' * v;
    assert d' == (n * u + d * v) * d' == (n * d') * u + d * (v * d');
    assert (n' * d) * u == d * (n' * u);
  }

  lemma LowestUnique(n: int, d: int, p: int, q: int)
    requires q != 0
    ensures Represents(n, d, p, q) <==> (n, d) == Lowest(p, q)
  {
    hide Represents, Lowest;
    LowestRepresents(p, q);
    if Represents(n, d, p, q) {
      RepresentsUnique(n, d, Lowest(p, q).0, Lowest(p, q).1, p, q);
    }
  }

  lemma ScaleCross(n: int, d: int, p: int, q: int, k: int)
    requires n * q == p * d
    ensures n * (q * k) == (p * k) * d
  {
    assert n * (q * k) == (n * q) * k && (p * k) * d == (p * d) * k;
  }

  /** Multiplying both by one factor does not change the lowest terms. */
  lemma LowestScaled(p: int, q: int, k: int, p': int, q': int)
    requires q != 0 && k != 0 && q' != 0 && p' == p * k && q' == q * k
    ensures Lowest(p', q') == Lowest(p, q)
  {
    LowestRepresents(p, q);
    var n, d := Lowest(p, q).0, Lowest(p, q).1;
    hide Lowest, Gcd;
    ScaleCross(n, d, p, q, k);
    LowestUnique(n, d, p', q');
  }

  /** A product of numbers that are coprime crosswise is in lowest terms. */
  lemma CoprimeProducts(a: int, b: int, c: int, d: int)
    requires Gcd(Abs(a), Abs(b)) == 1 && Gcd(Abs(a), Abs(d)) == 1 && Gcd(Abs(c), Abs(b)) == 1
              && Gcd(Abs(c), Abs(d)) == 1
    ensures Gcd(Abs(a * c), Abs(b * d)) == 1
  {
    var u1, v1 := CoprimeWitness(a, b);
    var u2, v2 := CoprimeWitness(a, d);
    var u3, v3 := CoprimeWitness(c, b);
    var u4, v4 := CoprimeWitness(c, d);
    hide Gcd, Abs;
    var s, t := WitnessProduct(a, b, d, u1, v1, u2, v2);
    var s', t' := WitnessProduct(c, b, d, u3, v3, u4, v4);
    var x, y := WitnessProduct(b * d, a, c, t, s, t', s');
    CoprimeAbs(a * c, b * d, y, x);
  }

  /** Coprime to two numbers is coprime to their product. */
  lemma WitnessProduct(a: int, b: int, d: int, u: int, v: int, u': int, v': int) returns (s: int, t: int)
    requires a * u + b * v == 1 && a * u' + d * v' == 1
    ensures a * s + (b * d) * t == 1
  {
    s, t := u * (a * u' + d * v') + (b * v) * u', v * v';
    assert (b * v) * (a * u') == a * ((b * v) * u') && (b * v) * (d * v') == (b * d) * (v * v');
    assert (a * u + b * v) * (a * u' + d * v') == (a * u) * (a * u' + d * v') + (b * v) * (a * u') + (b * v) * (d * v');
    assert (a * u) * (a * u' + d * v') == a * (u * (a * u' + d * v'));
  }
}

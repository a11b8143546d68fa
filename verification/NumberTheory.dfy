// Greatest common divisors, for the cycles of rotate and for fractions in lowest terms.

module NumberTheory {
  function Gcd(a: nat, b: nat): (g: nat)
    ensures a > 0 || b > 0 ==> g > 0
    decreases b
  {
    if b == 0 then a else Gcd(b, a % b)
  }

  predicate Divides(d: int, a: int)
    requires d != 0
  {
    a % d == 0
  }

  lemma DivMod(a: int, d: int)
    requires d > 0
    ensures a == d * (a / d) + a % d && 0 <= a % d < d
  {
  }

  lemma AtLeastOneFactor(d: int, k: int)
    requires d > 0
    ensures k >= 1 ==> d * k >= d
    ensures k <= -1 ==> d * k <= -d
  {
  }

  lemma ModIs(a: int, n: int, q: int, r: int)
    requires n > 0 && a == n * q + r && 0 <= r < n
    ensures a % n == r
  {
    DivMod(a, n);
    assert n * (q - a / n) == a % n - r;
    AtLeastOneFactor(n, q - a / n);
  }

  lemma MultipleDivides(d: int, q: int)
    requires d > 0
    ensures (d * q) % d == 0 && (d * q) / d == q
  {
    DivMod(d * q, d);
    var r, p := (d * q) % d, (d * q) / d;
    assert d * (q - p) == r;
    AtLeastOneFactor(d, q - p);
  }

  lemma Substitute(a: int, b: int, q: int, r: int, u: int, v: int)
    requires a == b * q + r
    ensures a * v + b * (u - q * v) == b * u + r * v
  {
    assert b * (q * v) == (b * q) * v;
    assert (b * q) * v + r * v == (b * q + r) * v;
  }

  /** The greatest common divisor is an integer combination of the two numbers. */
  lemma {:induction false} Bezout(a: nat, b: nat) returns (x: int, y: int)
    ensures a * x + b * y == Gcd(a, b)
    decreases b
  {
    if b == 0 {
      x, y := 1, 0;
    } else {
      var u, v := Bezout(b, a % b);
      x, y := v, u - (a / b) * v;
      DivMod(a, b);
      Substitute(a, b, a / b, a % b, u, v);
    }
  }

  lemma {:induction false} GcdDivides(a: nat, b: nat)
    requires a > 0 || b > 0
    ensures Divides(Gcd(a, b), a) && Divides(Gcd(a, b), b)
    decreases b
  {
    if b > 0 {
      GcdDivides(b, a % b);
      var g := Gcd(b, a % b);
      DivMod(a, b);
      DivMod(b, g);
      DivMod(a % b, g);
      assert a == g * ((b / g) * (a / b) + (a % b) / g);
      MultipleDivides(g, (b / g) * (a / b) + (a % b) / g);
    } else {
      MultipleDivides(a, 1);
      MultipleDivides(a, 0);
    }
  }

  /** Dividing out the greatest common divisor leaves coprime numbers. */
  lemma ReducedCoprime(a: nat, b: nat) returns (x: int, y: int)
    requires a > 0 || b > 0
    ensures var g := Gcd(a, b); a == g * (a / g) && b == g * (b / g) && (a / g) * x + (b / g) * y == 1
  {
    var g := Gcd(a, b);
    GcdDivides(a, b);
    x, y := Bezout(a, b);
    DivMod(a, g);
    DivMod(b, g);
    var p, q := a / g, b / g;
    assert g * (p * x + q * y) == (g * p) * x + (g * q) * y == g * 1;
    CancelFactor(g, p * x + q * y, 1);
  }

  lemma CancelFactor(g: int, a: int, b: int)
    requires g > 0 && g * a == g * b
    ensures a == b
  {
    assert g * (a - b) == 0;
    AtLeastOneFactor(g, a - b);
  }

  /** Euclid's lemma: a number that divides a product and is coprime to one factor divides the other. */
  lemma CoprimeDivides(a: int, b: int, c: int, x: int, y: int) returns (q: int)
    requires a > 0 && a * x + b * y == 1
    requires (b * c) % a == 0
    ensures c == a * q
  {
    DivMod(b * c, a);
    var m := (b * c) / a;
    q := x * c + m * y;
    calc {
      c;
      (a * x + b * y) * c;
      a * (x * c) + (b * c) * y;
      a * (x * c) + (a * m) * y;
      a * q;
    }
  }

  method ComputeGcd(a0: nat, b0: nat) returns (g: nat)
    ensures g == Gcd(a0, b0)
  {
    var a, b := a0, b0;
    while b != 0
      invariant Gcd(a, b) == Gcd(a0, b0)
      decreases b
    {
      a, b := b, a % b;
    }
    g := a;
  }
}

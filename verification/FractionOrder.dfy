// Comparing fractions without multiplying: the continued-fraction walk of dbase/math/fraction.cpp.

module FractionOrder {
  import opened NumberTheory
  import opened LowestTerms
  import opened Int64
  import opened Fractions

  datatype Ordering = Less | Equal | Greater

  function Sign(x: int): Ordering {
    if x < 0 then Less else if x == 0 then Equal else Greater
  }

  function Reverse(o: Ordering): Ordering {
    match o
    case Less => Greater
    case Equal => Equal
    case Greater => Less
  }

  /** a / b against c / d, by the exact cross product. */
  function CrossSign(a: int, b: int, c: int, d: int): Ordering {
    Sign(a * d - c * b)
  }

  /** Different whole parts decide. */
  lemma WholePartsDecide(a: nat, b: nat, c: nat, d: nat)
    requires b > 0 && d > 0
    ensures a / b < c / d ==> CrossSign(a, b, c, d) == Less
    ensures a / b > c / d ==> CrossSign(a, b, c, d) == Greater
  {
    if a / b < c / d {
      SmallerWhole(a, b, c, d);
    } else if a / b > c / d {
      SmallerWhole(c, d, a, b);
    }
  }

  lemma SmallerWhole(a: nat, b: nat, c: nat, d: nat)
    requires b > 0 && d > 0 && a / b < c / d
    ensures a * d < c * b
  {
    DivMod(a, b);
    DivMod(c, d);
    BelowNext(a, b, a / b, c / d);
    BelowWhole(a, b, c, d, c / d);
  }

  lemma BelowNext(a: int, b: int, q1: int, q2: int)
    requires b > 0 && a < b * q1 + b && q1 < q2
    ensures a < b * q2
  {
    AtLeastOneFactor(b, q2 - q1);
  }

  lemma BelowWhole(a: int, b: int, c: int, d: int, q2: int)
    requires b > 0 && d > 0 && a < b * q2 && d * q2 <= c
    ensures a * d < c * b
  {
    var m := b * q2;
    Scaled(d, a, m);
    Scaled(b, d * q2, c);
    assert d * m == b * (d * q2);
  }

  lemma Scaled(m: int, x: int, y: int)
    requires m > 0
    ensures x < y ==> m * x < m * y
    ensures x <= y ==> m * x <= m * y
  {
    AtLeastOneFactor(m, y - x);
    assert m * (y - x) == m * y - m * x;
  }

  /** With equal whole parts the remainders decide, the other way round once the fractions are turned over. */
  lemma RemaindersDecide(a: nat, b: nat, c: nat, d: nat)
    requires b > 0 && d > 0 && a / b == c / d
    ensures CrossSign(a, b, c, d) == Sign((a % b) * d - (c % d) * b)
    ensures CrossSign(a, b, c, d) == Reverse(CrossSign(b, a % b, d, c % d))
  {
    DivMod(a, b);
    DivMod(c, d);
    SameWhole(a, b, c, d, a / b, a % b, c % d);
  }

  lemma SameWhole(a: int, b: int, c: int, d: int, q: int, r1: int, r2: int)
    requires a == b * q + r1 && c == d * q + r2
    ensures a * d - c * b == r1 * d - r2 * b == -(b * r2 - d * r1)
  {
    assert (b * q) * d == (d * q) * b;
  }

  lemma ZeroRemainder(r1: nat, d: nat, r2: nat, b: nat)
    requires b > 0 && d > 0 && (r1 == 0 || r2 == 0)
    ensures Sign(r1 * d - r2 * b) == if r1 == 0 && r2 == 0 then Equal else if r1 == 0 then Less else Greater
  {
    AtLeastOneFactor(d, r1);
    AtLeastOneFactor(b, r2);
  }

  /** compareUnsignedFractions: terminates with the sign of the exact cross product. */
  method CompareUnsigned(a0: nat, b0: nat, c0: nat, d0: nat) returns (o: Ordering)
    requires b0 > 0 && d0 > 0
    ensures o == CrossSign(a0, b0, c0, d0)
  {
    hide CrossSign, Sign;
    var a, b, c, d := a0, b0, c0, d0;
    var reversed := false;
    while true
      invariant b > 0 && d > 0
      invariant CrossSign(a0, b0, c0, d0) == if reversed then Reverse(CrossSign(a, b, c, d)) else CrossSign(a, b, c, d)
      decreases b
    {
      var q1, q2 := a / b, c / d;
      WholePartsDecide(a, b, c, d);
      if q1 != q2 {
        var less := q1 < q2;
        if !reversed {
          return if less then Less else Greater;
        }
        return if less then Greater else Less;
      }
      RemaindersDecide(a, b, c, d);
      var r1, r2 := a % b, c % d;
      if r1 == 0 || r2 == 0 {
        ZeroRemainder(r1, d, r2, b);
        if r1 == 0 && r2 == 0 {
          return Equal;
        }
        var less := r1 == 0;
        if !reversed {
          return if less then Less else Greater;
        }
        return if less then Greater else Less;
      }
      a, b, c, d := b, r1, d, r2;
      reversed := !reversed;
    }
  }

  /** operator<=>. */
  method Compare(lhs: Fraction, rhs: Fraction) returns (o: Ordering)
    requires lhs.Valid() && rhs.Valid()
    ensures o == CrossSign(lhs.num, lhs.den, rhs.num, rhs.den)
  {
    SignsDecide(lhs.num, lhs.den, rhs.num, rhs.den);
    hide CrossSign, Gcd;
    if lhs.num == rhs.num && lhs.den == rhs.den {
      return Equal;
    }
    if lhs.num < 0 && rhs.num >= 0 {
      return Less;
    }
    if lhs.num >= 0 && rhs.num < 0 {
      return Greater;
    }
    var ord := CompareUnsigned(AbsToUint64(lhs.num), lhs.den, AbsToUint64(rhs.num), rhs.den);
    if lhs.num < 0 {
      if ord == Less {
        return Greater;
      }
      if ord == Greater {
        return Less;
      }
    }
    return ord;
  }

  lemma SignsDecide(n1: int, d1: int, n2: int, d2: int)
    requires d1 > 0 && d2 > 0
    ensures n1 == n2 && d1 == d2 ==> CrossSign(n1, d1, n2, d2) == Equal
    ensures n1 < 0 && n2 >= 0 ==> CrossSign(n1, d1, n2, d2) == Less
    ensures n1 >= 0 && n2 < 0 ==> CrossSign(n1, d1, n2, d2) == Greater
    ensures n1 < 0 && n2 < 0 ==> CrossSign(n1, d1, n2, d2) == Reverse(CrossSign(-n1, d1, -n2, d2))
  {
    AtLeastOneFactor(d2, n1);
    AtLeastOneFactor(d1, n2);
    assert -n1 * d2 - -n2 * d1 == -(n1 * d2 - n2 * d1);
  }

  /** The order is that of the rationals: total, and equal exactly when numerator and denominator are. */
  lemma TotalOrder(n1: int, d1: int, n2: int, d2: int)
    requires d1 > 0 && d2 > 0 && Gcd(Abs(n1), d1) == 1 && Gcd(Abs(n2), d2) == 1
    ensures CrossSign(n2, d2, n1, d1) == Reverse(CrossSign(n1, d1, n2, d2))
    ensures CrossSign(n1, d1, n2, d2) == Equal <==> n1 == n2 && d1 == d2
  {
    hide Gcd;
    if n1 * d2 == n2 * d1 {
      RepresentsUnique(n1, d1, n2, d2, n1, d1);
    }
  }

  lemma {:induction false} Transitive(n1: int, d1: int, n2: int, d2: int, n3: int, d3: int)
    requires d1 > 0 && d2 > 0 && d3 > 0
    requires CrossSign(n1, d1, n2, d2) != Greater && CrossSign(n2, d2, n3, d3) != Greater
    ensures CrossSign(n1, d1, n3, d3) != Greater
    ensures CrossSign(n1, d1, n2, d2) == Less || CrossSign(n2, d2, n3, d3) == Less ==> CrossSign(n1, d1, n3, d3) == Less
  {
    var x, y, z := n1 * d2 - n2 * d1, n2 * d3 - n3 * d2, n1 * d3 - n3 * d1;
    assert d2 * z == d3 * x + d1 * y;
    AtLeastOneFactor(d3, x);
    AtLeastOneFactor(d1, y);
    AtLeastOneFactor(d2, z);
  }
}

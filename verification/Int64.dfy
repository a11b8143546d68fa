// The overflow-checked 64-bit arithmetic of dbase/math/fraction.cpp.

module Int64 {
  import opened Wrappers
  import opened NumberTheory

  const MAX: int := 0x7fff_ffff_ffff_ffff
  const MIN: int := -0x8000_0000_0000_0000

  predicate Fits(x: int) {
    MIN <= x <= MAX
  }

  /** `x`, if it is a 64-bit value. */
  function Checked(x: int): Option<int> {
    if Fits(x) then Some(x) else None
  }

  /** Division that truncates towards zero. */
  function TruncDiv(a: int, b: int): (q: int)
    requires b != 0
    ensures a >= 0 && b > 0 ==> q == a / b
  {
    if b > 0 then if a >= 0 then a / b else -(-a / b)
    else if a >= 0 then -(a / -b) else -a / -b
  }

  function SafeNegate(x: int): (r: Option<int>)
    requires Fits(x)
    ensures r == Checked(-x)
  {
    if x == MIN then None else Some(-x)
  }

  /** Throws exactly when the sum does not fit; the test itself does not overflow. */
  function SafeAdd(a: int, b: int): (r: Option<int>)
    requires Fits(a) && Fits(b)
    ensures r == Checked(a + b)
  {
    assert b > 0 ==> Fits(MAX - b);
    assert b < 0 ==> Fits(MIN - b);
    if b > 0 && a > MAX - b then None
    else if b < 0 && a < MIN - b then None
    else Some(a + b)
  }

  /** Also throws for a subtrahend that cannot be negated. */
  function SafeSub(a: int, b: int): (r: Option<int>)
    requires Fits(a) && Fits(b)
    ensures r == if b == MIN then None else Checked(a - b)
  {
    if b == MIN then None else SafeAdd(a, -b)
  }

  function SafeMul(a: int, b: int): (r: Option<int>)
    requires Fits(a) && Fits(b)
    ensures r == Checked(a * b)
  {
    if a == 0 || b == 0 then Some(0)
    else if a == 1 then Some(b)
    else if b == 1 then Some(a)
    else if a == -1 then SafeNegate(b)
    else if b == -1 then SafeNegate(a)
    else
      MulTest(a, b);
      if a > 0 then
        if b > 0 then if a > TruncDiv(MAX, b) then None else Some(a * b)
        else if b < TruncDiv(MIN, a) then None else Some(a * b)
      else
        if b > 0 then if a < TruncDiv(MIN, b) then None else Some(a * b)
        else if a < TruncDiv(MAX, b) then None else Some(a * b)
  }

  /** The quotient tests tell whether the product fits. */
  lemma MulTest(a: int, b: int)
    requires a != 0 && b != 0
    ensures a > 0 && b > 0 ==> (a > TruncDiv(MAX, b) <==> !Fits(a * b))
    ensures a > 0 && b < 0 ==> (b < TruncDiv(MIN, a) <==> !Fits(a * b))
    ensures a < 0 && b > 0 ==> (a < TruncDiv(MIN, b) <==> !Fits(a * b))
    ensures a < 0 && b < 0 ==> (a < TruncDiv(MAX, b) <==> !Fits(a * b))
  {
    if a > 0 && b > 0 {
      QuotientTest(MAX, a, b);
    } else if a > 0 {
      QuotientTest(-MIN, -b, a);
    } else if b > 0 {
      QuotientTest(-MIN, -a, b);
    } else {
      QuotientTest(MAX, -a, -b);
    }
  }

  lemma QuotientTest(limit: nat, x: nat, y: nat)
    requires y > 0
    ensures x > limit / y <==> x * y > limit
    ensures x * y >= 0
  {
    DivMod(limit, y);
    Bracket(limit, x, y, limit / y, limit % y);
  }

  lemma Bracket(limit: int, x: int, y: int, q: int, r: int)
    requires limit == y * q + r && 0 <= r < y && x >= 0
    ensures x > q <==> x * y > limit
    ensures x * y >= 0
  {
    AtLeastOneFactor(y, x - q);
    AtLeastOneFactor(y, x);
    assert y * (x - q) == x * y - y * q;
  }

  /** The magnitude as an unsigned 64-bit value. */
  function AbsToUint64(x: int): (r: nat)
    requires Fits(x)
    ensures r == if x >= 0 then x else -x
    ensures r <= -MIN
  {
    if x >= 0 then x else -(x + 1) + 1
  }

  function SafeCast(x: nat): (r: Option<int>)
    ensures r == Checked(x)
  {
    if x == 0 then Some(0) else if x > MAX then None else Some(x)
  }
}

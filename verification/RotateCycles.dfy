// The rotate of dbase/stl/algo.h for random access iterators: one element is taken out of each cycle of the
// permutation and the others are pulled along.

module CycleArithmetic {
  import opened NumberTheory

  /** The `k`-th place that is refilled in the cycle of `i`, when `n` elements move `l` to the left. */
  function Pos(n: nat, l: nat, i: nat, k: nat): nat
    requires n > 0
  {
    (i + k * l) % n
  }

  /** How many places each cycle has. */
  function CycleLength(n: nat, l: nat): nat
    requires n > 0
  {
    n / Gcd(n, l)
  }

  lemma SameMod(a: int, b: int, n: int, q: int)
    requires n > 0 && a == b + n * q
    ensures a % n == b % n
  {
    DivMod(b, n);
    assert n * q + n * (b / n) == n * (q + b / n);
    ModIs(a, n, q + b / n, b % n);
  }

  lemma PosNext(n: nat, l: nat, i: nat, k: nat)
    requires n > 0
    ensures Pos(n, l, i, k + 1) == (Pos(n, l, i, k) + l) % n
  {
    var a := i + k * l;
    DivMod(a, n);
    assert i + (k + 1) * l == a + l;
    SameMod(a + l, a % n + l, n, a / n);
  }

  /** A cycle stays within one residue class of the greatest common divisor. */
  lemma PosResidue(n: nat, l: nat, i: nat, k: nat)
    requires n > 0 && i < Gcd(n, l)
    ensures Pos(n, l, i, k) % Gcd(n, l) == i
  {
    var g := Gcd(n, l);
    GcdDivides(n, l);
    DivMod(n, g);
    DivMod(l, g);
    var a := i + k * l;
    DivMod(a, n);
    ResidueEquation(n, l, g, n / g, l / g, i, k, a / n);
    ModIs(a % n, g, k * (l / g) - (n / g) * (a / n), i);
  }

  lemma ResidueEquation(n: int, l: int, g: int, n': int, l': int, i: int, k: int, t: int)
    requires n == g * n' && l == g * l'
    ensures i + k * l - n * t == g * (k * l' - n' * t) + i
  {
    assert k * (g * l') == g * (k * l') && (g * n') * t == g * (n' * t);
  }

  lemma ZeroMultiple(n: int, d: int, m: int)
    requires n > 0 && d == n * m && -n < d < n
    ensures d == 0
  {
    AtLeastOneFactor(n, m);
  }

  lemma DistinctEquation(n: int, l: int, g: int, n': int, l': int, d: int, m: int)
    requires g > 0 && n == g * n' && l == g * l' && d * l == n * m
    ensures l' * d == n' * m
  {
    assert g * (l' * d) == d * (g * l') && g * (n' * m) == (g * n') * m;
    CancelFactor(g, l' * d, n' * m);
  }

  lemma NoSmallGap(n': int, l': int, x: int, y: int, d: int, m: int)
    requires n' > 0 && n' * x + l' * y == 1
    requires l' * d == n' * m && -n' < d < n'
    ensures d == 0
  {
    MultipleDivides(n', m);
    var q := CoprimeDivides(n', l', d, x, y);
    ZeroMultiple(n', d, q);
  }

  lemma EqualMod(a: int, b: int, n: int) returns (m: int)
    requires n > 0 && a % n == b % n
    ensures a - b == n * m
  {
    DivMod(a, n);
    DivMod(b, n);
    m := a / n - b / n;
  }

  /** The first n / gcd places of a cycle are distinct. */
  lemma PosDistinct(n: nat, l: nat, i: nat, j: nat, k: nat)
    requires n > 0 && j < CycleLength(n, l) && k < CycleLength(n, l)
    requires Pos(n, l, i, j) == Pos(n, l, i, k)
    ensures j == k
  {
    var g := Gcd(n, l);
    var x, y := ReducedCoprime(n, l);
    var m := EqualMod(i + j * l, i + k * l, n);
    assert (j - k) * l == n * m;
    DistinctEquation(n, l, g, n / g, l / g, j - k, m);
    NoSmallGap(n / g, l / g, x, y, j - k, m);
  }

  /** They are all the places of the residue class. */
  lemma PosCovers(n: nat, l: nat, i: nat, p: nat) returns (k: nat)
    requires n > 0 && p < n && i == p % Gcd(n, l)
    ensures k < CycleLength(n, l) && Pos(n, l, i, k) == p
  {
    var g := Gcd(n, l);
    var x, y := ReducedCoprime(n, l);
    var n', l' := n / g, l / g;
    DivMod(p, g);
    var q := p / g;
    var m := q * y;
    AtLeastOneFactor(g, n');
    DivMod(m, n');
    k := m % n';
    var t := m / n';
    CoverEquation(n, l, g, n', l', x, y, i, p, q, m, k, t);
    ModIs(i + k * l, n, -(q * x + t * l'), p);
  }

  lemma CoverEquation(n: int, l: int, g: int, n': int, l': int, x: int, y: int, i: int, p: int, q: int, m: int,
          k: int, t: int)
    requires n == g * n' && l == g * l' && n' * x + l' * y == 1
    requires p == g * q + i && m == q * y && m == n' * t + k
    ensures i + k * l == n * -(q * x + t * l') + p
  {
    assert k * l == m * l - (n' * t) * (g * l');
    assert (n' * t) * (g * l') == n * (t * l') by {
      assert (n' * t) * (g * l') == (g * n') * (t * l');
    }
    assert m * l == g * q * (l' * y);
    assert l' * y == 1 - n' * x;
    assert g * q * (1 - n' * x) == g * q - (g * n') * (q * x);
  }

  /** One move of `l` to the right, going round, is one of `r` to the left when there are l + r places. */
  lemma PosMoves(n: nat, l: nat, r: nat, i: nat, k: nat)
    requires 0 < n == l + r
    ensures Pos(n, l, i, k + 1) == if Pos(n, l, i, k) < r then Pos(n, l, i, k) + l else Pos(n, l, i, k) - r
  {
    PosNext(n, l, i, k);
    var q := Pos(n, l, i, k);
    ModIs(q + l, n, if q < r then 0 else 1, if q < r then q + l else q - r);
  }

  /** The sizes of a rotation, all in units of the greatest common divisor. */
  predicate Units(n: nat, l: nat, r: nat, g: nat, l': nat, r': nat)
  {
    && 0 < l && 0 < r && n == l + r
    && g > 0 && l == g * l' && r == g * r' && g == Gcd(n, l) && CycleLength(n, l) == l' + r'
  }

  lemma UnitsExist(n: nat, l: nat, r: nat)
    requires 0 < l && 0 < r && n == l + r
    ensures Units(n, l, r, Gcd(n, l), l / Gcd(n, l), r / Gcd(n, l))
  {
    var g := Gcd(n, l);
    GcdDivides(n, l);
    DivMod(n, g);
    DivMod(l, g);
    assert r == g * (n / g - l / g);
    MultipleDivides(g, n / g - l / g);
  }

  /** The last place of the cycle, the one whose successor is the first. */
  lemma LastPos(n: nat, l: nat, r: nat, g: nat, l': nat, r': nat, i: nat)
    requires Units(n, l, r, g, l', r') && i < g
    ensures l' >= 1 && r' >= 1 && Pos(n, l, i, l' + r' - 1) == i + r
  {
    AtLeastOneFactor(g, l');
    AtLeastOneFactor(g, r');
    LastPlace(g, l', r', i);
    ModIs(i + (l' + r' - 1) * l, n, l' - 1, i + r);
  }

  lemma LastPlace(g: int, l': int, r': int, i: int)
    ensures g * l' + g * r' == g * (l' + r')
    ensures i + (l' + r' - 1) * (g * l') == (g * (l' + r')) * (l' - 1) + (i + g * r')
  {
    var m, t := g * (l' + r'), g * l';
    Crossed(g, l' + r', l');
    assert (l' + r' - 1) * t == (l' + r') * t - t;
    assert m * (l' - 1) == m * l' - m;
  }

  lemma Crossed(g: int, a: int, b: int)
    ensures a * (g * b) == b * (g * a) == (g * a) * b
  {
    assert a * (g * b) == (a * g) * b;
    assert (a * g) * b == (g * a) * b;
  }

  lemma Scale(g: int, a: int, b: int)
    requires g > 0
    ensures a < b <==> g * a < g * b
    ensures a + 1 <= b ==> g * a + g <= g * b
  {
    AtLeastOneFactor(g, b - a);
    AtLeastOneFactor(g, a - b);
  }

  /** Short front part: before each round there is room for the step of `l` once the place is below i + r. */
  lemma RoomAhead(l: int, r: int, g: int, l': int, r': int, i: int, j: int, b: int, q: int)
    requires g > 0 && l == g * l' && r == g * r' && 0 <= i < g
    requires q == i + j * l - b * r && q < i + r
    ensures q < r
  {
    assert j * (g * l') == g * (j * l') && b * (g * r') == g * (b * r');
    var m := j * l' - b * r';
    assert g * m == q - i;
    Scale(g, m, r');
  }

  /** Short front part: the steps back stay fewer than l / gcd. */
  lemma FewStepsBack(l: int, r: int, g: int, l': int, r': int, i: int, j: int, b: int, q: int)
    requires g > 0 && l == g * l' && r == g * r' > 0 && 0 <= i < g
    requires q == i + j * l - b * r && l <= q && 0 < j <= r' && 1 <= l'
    ensures b <= l' - 1
  {
    Scale(g, 0, l');
    Crossed(g, r', l');
    Products(l, j, r');
    Products(r, l', b);
  }

  lemma Products(l: int, a: int, b: int)
    requires l > 0
    ensures a <= b ==> a * l <= b * l
    ensures a < b ==> a * l + l <= b * l
  {
    AtLeastOneFactor(l, b - a);
    assert l * (b - a) == b * l - a * l;
  }

  /** Short front part: after r / gcd rounds the last place is reached. */
  lemma ShortEnds(l: int, r: int, g: int, l': int, r': int, i: int, b: int, q: int)
    requires g > 0 && l == g * l' && r == g * r' && 0 <= i < g && 0 < l < r
    requires q == i + r' * l - b * r && q < l + r && b <= l' - 1
    ensures b == l' - 1
  {
    Crossed(g, r', l');
    Products(r, 2, l' - b);
    assert (l' - b) * r == l' * r - b * r;
  }

  /** Long front part: the steps ahead are at most r / gcd. */
  lemma FewStepsAhead(l: int, r: int, g: int, l': int, r': int, i: int, j: int, f: int, q: int)
    requires g > 0 && l == g * l' > 0 && r == g * r' > 0 && 0 <= i < g
    requires q == i + f * l - j * r && q < l + r && j <= l' - 1
    ensures f <= r'
  {
    Crossed(g, r', l');
    Products(r, j, l' - 1);
    Products(l, r' + 1, f);
    assert (l' - 1) * r == l' * r - r && (r' + 1) * l == r' * l + l;
  }

  /** Long front part: after l / gcd - 1 rounds the last place is reached. */
  lemma LongEnds(l: int, r: int, g: int, l': int, r': int, i: int, f: int, q: int)
    requires g > 0 && l == g * l' && r == g * r' && 0 <= i < g && 0 < r < l
    requires q == i + f * l - (l' - 1) * r && 0 <= q && f <= r'
    ensures f == r'
  {
    Crossed(g, r', l');
    Scale(g, r', l');
    Products(l, f, r');
    assert (l' - 1) * r == l' * r - r;
  }
}

module RotateCycles {
  import opened NumberTheory
  import opened CycleArithmetic
  import opened Rotate

  /** Place `x` is refilled once the cycles of the residues below `i`, and `k` places of the cycle of `i`, are done. */
  ghost predicate Settled(n: nat, l: nat, i: nat, k: nat, x: nat)
    requires n > 0
  {
    x % Gcd(n, l) < i || exists m: nat :: m < k && x == Pos(n, l, i, m)
  }

  /** The place `l` further on, going round. */
  function Further(n: nat, l: nat, x: nat): nat
    requires n > 0
  {
    (x + l) % n
  }

  /** `t` is `s` with exactly the settled places refilled from `l` places further on. */
  ghost predicate Carried<T>(s: seq<T>, t: seq<T>, l: nat, i: nat, k: nat)
  {
    && |t| == |s|
    && forall x :: 0 <= x < |s| ==> t[x] == s[if Settled(|s|, l, i, k, x) then Further(|s|, l, x) else x]
  }

  lemma CarryBegins<T>(s: seq<T>, l: nat)
    ensures Carried(s, s, l, 0, 0)
  {
  }

  lemma SettledNext(n: nat, l: nat, i: nat, k: nat, x: nat)
    requires n > 0
    ensures Settled(n, l, i, k + 1, x) == (Settled(n, l, i, k, x) || x == Pos(n, l, i, k))
  {
  }

  /** A place of the cycle that is still to come has not been touched. */
  lemma NotYetSettled(n: nat, l: nat, i: nat, k: nat, j: nat)
    requires n > 0 && i < Gcd(n, l) && k <= j < CycleLength(n, l)
    ensures !Settled(n, l, i, k, Pos(n, l, i, j))
  {
    PosResidue(n, l, i, j);
    forall m: nat | m < k
      ensures Pos(n, l, i, j) != Pos(n, l, i, m)
    {
      if Pos(n, l, i, j) == Pos(n, l, i, m) {
        PosDistinct(n, l, i, m, j);
      }
    }
  }

  /** Refilling the next place of the cycle with the element that belongs there. */
  lemma CarryStep<T>(s: seq<T>, t: seq<T>, l: nat, i: nat, k: nat, e: T)
    requires s != [] && i < Gcd(|s|, l) && k < CycleLength(|s|, l)
    requires Carried(s, t, l, i, k) && e == s[Pos(|s|, l, i, k + 1)]
    ensures Carried(s, t[Pos(|s|, l, i, k) := e], l, i, k + 1)
  {
    var n, p := |s|, Pos(|s|, l, i, k);
    var t' := t[p := e];
    PosNext(n, l, i, k);
    forall x | 0 <= x < n
      ensures t'[x] == s[if Settled(n, l, i, k + 1, x) then Further(n, l, x) else x]
    {
      SettledNext(n, l, i, k, x);
      hide Settled, Pos;
    }
  }

  /** The place `l` further on still holds what it held at first. */
  lemma CarrySource<T>(s: seq<T>, t: seq<T>, l: nat, i: nat, k: nat)
    requires s != [] && i < Gcd(|s|, l) && k < CycleLength(|s|, l)
    requires Carried(s, t, l, i, k)
    ensures t[Pos(|s|, l, i, k)] == s[Pos(|s|, l, i, k)]
    ensures k + 1 < CycleLength(|s|, l) ==> t[Pos(|s|, l, i, k + 1)] == s[Pos(|s|, l, i, k + 1)]
  {
    NotYetSettled(|s|, l, i, k, k);
    if k + 1 < CycleLength(|s|, l) {
      NotYetSettled(|s|, l, i, k, k + 1);
    }
  }

  lemma ClassSettled(n: nat, l: nat, i: nat, x: nat)
    requires x < n && i < Gcd(n, l)
    ensures Settled(n, l, i + 1, 0, x) == Settled(n, l, i, CycleLength(n, l), x)
  {
    var g := Gcd(n, l);
    if x % g == i {
      var k := PosCovers(n, l, i, x);
    } else if Settled(n, l, i, CycleLength(n, l), x) && x % g > i {
      var m: nat :| m < CycleLength(n, l) && x == Pos(n, l, i, m);
      PosResidue(n, l, i, m);
    }
  }

  /** When a cycle is closed its whole residue class is settled. */
  lemma CycleDone<T>(s: seq<T>, t: seq<T>, l: nat, i: nat)
    requires s != [] && i < Gcd(|s|, l)
    requires Carried(s, t, l, i, CycleLength(|s|, l))
    ensures Carried(s, t, l, i + 1, 0)
  {
    hide Settled, Gcd, CycleLength, Further;
    forall x: nat | x < |s|
      ensures Settled(|s|, l, i + 1, 0, x) == Settled(|s|, l, i, CycleLength(|s|, l), x)
    {
      ClassSettled(|s|, l, i, x);
    }
  }

  lemma WrapAround<T>(s: seq<T>, l: nat, x: nat)
    requires l <= |s| && x < |s|
    ensures Rotated(s, l)[x] == s[Further(|s|, l, x)]
  {
    ModIs(x + l, |s|, if x + l < |s| then 0 else 1, if x + l < |s| then x + l else x + l - |s|);
  }

  lemma AllSettled(n: nat, l: nat, x: nat)
    requires x < n
    ensures Settled(n, l, Gcd(n, l), 0, x)
  {
  }

  lemma AllDone<T>(s: seq<T>, t: seq<T>, l: nat)
    requires l <= |s| && s != [] && Carried(s, t, l, Gcd(|s|, l), 0)
    ensures t == Rotated(s, l)
  {
    hide Settled, Gcd;
    forall x: nat | x < |s|
      ensures t[x] == Rotated(s, l)[x]
    {
      AllSettled(|s|, l, x);
      WrapAround(s, l, x);
    }
  }

  /** Refills place `p` from place `p2`, the next one of the cycle. */
  method Pull<T>(a: array<T>, first0: nat, last: nat, p: nat, p2: nat, ghost s: seq<T>, ghost l: nat, ghost i: nat,
          ghost k: nat)
    requires first0 <= p < last <= a.Length && first0 <= p2 < last && |s| == last - first0
    requires i < Gcd(|s|, l) && k + 1 < CycleLength(|s|, l)
    requires p - first0 == Pos(|s|, l, i, k) && p2 - first0 == Pos(|s|, l, i, k + 1)
    requires Carried(s, a[first0..last], l, i, k)
    modifies a
    ensures Carried(s, a[first0..last], l, i, k + 1)
    ensures OnlyWithin(a, first0, last)
  {
    hide Carried, Gcd, CycleLength, Pos;
    ghost var t := a[first0..last];
    CarrySource(s, t, l, i, k);
    CarryBound(s, t, l, i, k);
    CarryStep(s, t, l, i, k, t[p2 - first0]);
    a[p] := a[p2];
    assert a[first0..last] == t[p - first0 := t[p2 - first0]];
  }

  lemma CarryBound<T>(s: seq<T>, t: seq<T>, l: nat, i: nat, k: nat)
    requires Carried(s, t, l, i, k)
    ensures |s| == |t|
  {
  }

  /** One cycle when the front part is the shorter one; stops at its last place. */
  method FollowShort<T>(a: array<T>, first0: nat, first: nat, last: nat, l: nat, r: nat, rounds: nat, ghost l': nat,
          ghost s: seq<T>)
    returns (p: nat)
    requires first0 <= first < last <= a.Length && |s| == last - first0 && l < r
    requires Units(|s|, l, r, Gcd(|s|, l), l', rounds) && first - first0 < Gcd(|s|, l)
    requires Carried(s, a[first0..last], l, first - first0, 0)
    modifies a
    ensures p == first + r < last && Carried(s, a[first0..last], l, first - first0, CycleLength(|s|, l) - 1)
    ensures OnlyWithin(a, first0, last)
  {
    hide Carried, Gcd, CycleLength, Pos, Spot, Units;
    ghost var i, b, n, g := first - first0, 0, |s|, Gcd(|s|, l);
    p := first;
    CycleBegins(n, l, r, g, l', rounds, i);
    for j := 0 to rounds
      invariant first0 <= p < last
      invariant p - first0 == Spot(i, l, r, j, b) == Pos(n, l, i, j + b)
      invariant j > 0 ==> p - first0 >= l && 0 <= b <= l' - 1
      invariant j == 0 ==> b == 0
      invariant Carried(s, a[first0..last], l, i, j + b)
      invariant OnlyWithin(a, first0, last)
    {
      ShortRound(n, l, r, g, l', rounds, i, j, b, p - first0);
      if p > first + r {
        Pull(a, first0, last, p, p - r, s, l, i, j + b);
        p := p - r;
        b := b + 1;
      }
      Pull(a, first0, last, p, p + l, s, l, i, j + b);
      p := p + l;
    }
    ShortDone(n, l, r, g, l', rounds, i, b);
  }

  /** Where `f` steps of `l` ahead and `b` steps of `r` back lead from `i`. */
  function Spot(i: nat, l: nat, r: nat, f: int, b: int): int
  {
    i + f * l - b * r
  }

  lemma SpotMoves(i: nat, l: nat, r: nat, f: int, b: int)
    ensures Spot(i, l, r, f + 1, b) == Spot(i, l, r, f, b) + l
    ensures Spot(i, l, r, f, b + 1) == Spot(i, l, r, f, b) - r
  {
    assert (f + 1) * l == f * l + l && (b + 1) * r == b * r + r;
  }

  lemma CycleBegins(n: nat, l: nat, r: nat, g: nat, l': nat, r': nat, i: nat)
    requires Units(n, l, r, g, l', r') && i < g
    ensures Pos(n, l, i, 0) == Spot(i, l, r, 0, 0) == i && l' >= 1 && r' >= 1
  {
    LastPos(n, l, r, g, l', r', i);
    AtLeastOneFactor(g, l');
    ModIs(i, n, 0, i);
  }

  /** What one round of the short case may rely on. */
  lemma ShortRound(n: nat, l: nat, r: nat, g: nat, l': nat, r': nat, i: nat, j: nat, b: nat, q: nat)
    requires Units(n, l, r, g, l', r') && l < r && i < g && j < r'
    requires q == Spot(i, l, r, j, b) == Pos(n, l, i, j + b) && q < n
    requires (j == 0 ==> b == 0) && (j > 0 ==> b <= l' - 1)
    ensures q > i + r ==>
              Pos(n, l, i, j + b + 1) == q - r && Pos(n, l, i, j + b + 2) == q - r + l < n && b + 1 <= l' - 1
    ensures q > i + r ==> Spot(i, l, r, j + 1, b + 1) == q - r + l
    ensures q <= i + r ==> Pos(n, l, i, j + b + 1) == Spot(i, l, r, j + 1, b) == q + l < n && b <= l' - 1
    ensures CycleLength(n, l) == l' + r'
  {
    LastPos(n, l, r, g, l', r', i);
    var q' := if q > i + r then q - r else q;
    var b' := if q > i + r then b + 1 else b;
    SpotMoves(i, l, r, j, b);
    SpotMoves(i, l, r, j, b');
    if q == i + r {
      PosDistinct(n, l, i, j + b, l' + r' - 1);
    }
    RoomAhead(l, r, g, l', r', i, j, b', q');
    FewStepsBack(l, r, g, l', r', i, j + 1, b', q' + l);
    hide Pos, Units, Spot;
    PosMoves(n, l, r, i, j + b);
    PosMoves(n, l, r, i, j + b + 1);
  }

  lemma ShortDone(n: nat, l: nat, r: nat, g: nat, l': nat, r': nat, i: nat, b: nat)
    requires Units(n, l, r, g, l', r') && l < r && i < g
    requires Spot(i, l, r, r', b) < n && b <= l' - 1
    ensures b == l' - 1 && Spot(i, l, r, r', b) == i + r && CycleLength(n, l) - 1 == r' + b
  {
    ShortEnds(l, r, g, l', r', i, b, Spot(i, l, r, r', b));
    assert r' * (g * l') == l' * (g * r');
    assert (l' - 1) * r == l' * r - r;
  }

  /** One cycle when the front part is the longer one. */
  method FollowLong<T>(a: array<T>, first0: nat, first: nat, last: nat, l: nat, r: nat, l': nat, ghost r': nat,
          ghost s: seq<T>)
    returns (p: nat)
    requires first0 <= first < last <= a.Length && |s| == last - first0 && r < l
    requires Units(|s|, l, r, Gcd(|s|, l), l', r') && first - first0 < Gcd(|s|, l)
    requires Carried(s, a[first0..last], l, first - first0, 0)
    modifies a
    ensures p == first + r < last && Carried(s, a[first0..last], l, first - first0, CycleLength(|s|, l) - 1)
    ensures OnlyWithin(a, first0, last)
  {
    hide Carried, Gcd, CycleLength, Pos, Spot, Units;
    ghost var i, f, n, g := first - first0, 0, |s|, Gcd(|s|, l);
    p := first;
    CycleBegins(n, l, r, g, l', r', i);
    for j := 0 to l' - 1
      invariant first0 <= p < last
      invariant p - first0 == Spot(i, l, r, f, j) == Pos(n, l, i, j + f)
      invariant 0 <= f <= r'
      invariant Carried(s, a[first0..last], l, i, j + f)
      invariant OnlyWithin(a, first0, last)
    {
      LongRound(n, l, r, g, l', r', i, j, f, p - first0);
      if p < last - l {
        Pull(a, first0, last, p, p + l, s, l, i, j + f);
        p := p + l;
        f := f + 1;
      }
      Pull(a, first0, last, p, p - r, s, l, i, j + f);
      p := p - r;
    }
    LongDone(n, l, r, g, l', r', i, f);
  }

  /** What one round of the long case may rely on. */
  lemma LongRound(n: nat, l: nat, r: nat, g: nat, l': nat, r': nat, i: nat, j: nat, f: nat, q: nat)
    requires Units(n, l, r, g, l', r') && r < l && i < g && j < l' - 1
    requires q == Spot(i, l, r, f, j) == Pos(n, l, i, j + f) && q < n
    ensures q < r ==> Pos(n, l, i, j + f + 1) == q + l < n && Pos(n, l, i, j + f + 2) == q + l - r && f + 1 <= r'
    ensures q < r ==> Spot(i, l, r, f + 1, j + 1) == q + l - r
    ensures q >= r ==> Pos(n, l, i, j + f + 1) == q - r == Spot(i, l, r, f, j + 1) && f <= r'
    ensures n == l + r && CycleLength(n, l) == l' + r'
  {
    var f' := if q < r then f + 1 else f;
    var q' := if q < r then q + l - r else q - r;
    SpotMoves(i, l, r, f, j);
    SpotMoves(i, l, r, f', j);
    FewStepsAhead(l, r, g, l', r', i, j + 1, f', q');
    hide Pos, Units, Spot, CycleLength;
    PosMoves(n, l, r, i, j + f);
    PosMoves(n, l, r, i, j + f + 1);
  }

  lemma LongDone(n: nat, l: nat, r: nat, g: nat, l': nat, r': nat, i: nat, f: nat)
    requires Units(n, l, r, g, l', r') && r < l && i < g && l' >= 1
    requires 0 <= Spot(i, l, r, f, l' - 1) && f <= r'
    ensures f == r' && Spot(i, l, r, f, l' - 1) == i + r < n && CycleLength(n, l) - 1 == l' - 1 + f
  {
    LongEnds(l, r, g, l', r', i, f, Spot(i, l, r, f, l' - 1));
    assert r' * (g * l') == l' * (g * r');
    assert (l' - 1) * r == l' * r - r;
    AtLeastOneFactor(g, l');
  }

  /** Follows the cycle of `first` and puts the element taken out into its last place. */
  method OneCycle<T>(a: array<T>, first0: nat, first: nat, last: nat, l: nat, r: nat, g: nat, ghost s: seq<T>)
    requires first0 <= first < last <= a.Length && |s| == last - first0 == l + r && 0 < l && 0 < r && l != r
    requires g == Gcd(|s|, l) > 0 && first - first0 < g
    requires Carried(s, a[first0..last], l, first - first0, 0)
    modifies a
    ensures Carried(s, a[first0..last], l, first - first0 + 1, 0)
    ensures OnlyWithin(a, first0, last)
  {
    hide Carried, Gcd, CycleLength, Pos;
    ghost var i := first - first0;
    var tmp, p := TakeOut(a, first0, first, last, l, r, g, s);
    ghost var t, k := a[first0..last], CycleLength(|s|, l) - 1;
    CarryStep(s, t, l, i, k, tmp);
    a[p] := tmp;
    assert a[first0..last] == t[p - first0 := tmp];
    CycleDone(s, a[first0..last], l, i);
  }

  /** The cycle without the element taken out, which is still to go to the last place. */
  method TakeOut<T>(a: array<T>, first0: nat, first: nat, last: nat, l: nat, r: nat, g: nat, ghost s: seq<T>)
    returns (tmp: T, p: nat)
    requires first0 <= first < last <= a.Length && |s| == last - first0 == l + r && 0 < l && 0 < r && l != r
    requires g == Gcd(|s|, l) > 0 && first - first0 < g
    requires Carried(s, a[first0..last], l, first - first0, 0)
    modifies a
    ensures CycleLength(|s|, l) > 0 && first0 <= p < last
    ensures var k := CycleLength(|s|, l) - 1;
            && Carried(s, a[first0..last], l, first - first0, k) && p - first0 == Pos(|s|, l, first - first0, k)
            && Pos(|s|, l, first - first0, k + 1) < |s| && tmp == s[Pos(|s|, l, first - first0, k + 1)]
    ensures OnlyWithin(a, first0, last)
  {
    hide Carried, Gcd, CycleLength, Pos, Units;
    ghost var i := first - first0;
    CycleEnds(|s|, l, r, g, i);
    FirstOut(s, a[first0..last], l, r, g, i);
    tmp := a[first];
    assert a[first0..last][i] == tmp;
    if l < r {
      p := FollowShort(a, first0, first, last, l, r, r / g, l / g, s);
    } else {
      p := FollowLong(a, first0, first, last, l, r, l / g, r / g, s);
    }
  }

  /** A cycle begins at `i`, and its last place is i + r. */
  lemma CycleEnds(n: nat, l: nat, r: nat, g: nat, i: nat)
    requires n == l + r && 0 < l && 0 < r && g == Gcd(n, l) > 0 && i < g
    ensures Units(n, l, r, g, l / g, r / g) && CycleLength(n, l) > 0 && Pos(n, l, i, 0) == i < n
    ensures var k := CycleLength(n, l) - 1; Pos(n, l, i, k) == i + r && Pos(n, l, i, k + 1) == i
  {
    UnitsExist(n, l, r);
    LastPos(n, l, r, g, l / g, r / g, i);
    CycleBegins(n, l, r, g, l / g, r / g, i);
    hide Gcd, CycleLength, Pos;
    PosMoves(n, l, r, i, l / g + r / g - 1);
  }

  /** The element a cycle begins with has not been touched yet. */
  lemma FirstOut<T>(s: seq<T>, t: seq<T>, l: nat, r: nat, g: nat, i: nat)
    requires |s| == l + r && 0 < l && 0 < r && g == Gcd(|s|, l) > 0 && i < g && Carried(s, t, l, i, 0)
    ensures |t| == |s| && i < |s| && t[i] == s[i]
  {
    CycleEnds(|s|, l, r, g, i);
    CarryBound(s, t, l, i, 0);
    CarrySource(s, t, l, i, 0);
  }

  /** rotate_dispatch for random access iterators. */
  method RotateRandom<T>(a: array<T>, first0: nat, middle: nat, last: nat) returns (result: nat)
    requires first0 < middle < last <= a.Length
    modifies a
    ensures a[first0..last] == Rotated(old(a[first0..last]), middle - first0)
    ensures result == first0 + (last - middle)
    ensures OnlyWithin(a, first0, last)
  {
    hide Carried, Gcd, CycleLength, Pos, Rotated;
    var n, l := last - first0, middle - first0;
    var r := n - l;
    result := first0 + (last - middle);
    if l == r {
      SwapHalves(a, first0, middle, last);
      return;
    }
    var cycleTimes := ComputeGcd(n, l);
    GcdBelow(n, l);
    ghost var s := a[first0..last];
    CarryBegins(s, l);
    var first := first0;
    for i := 0 to cycleTimes
      invariant first == first0 + i
      invariant Carried(s, a[first0..last], l, i, 0)
      invariant OnlyWithin(a, first0, last)
    {
      OneCycle(a, first0, first, last, l, r, cycleTimes, s);
      first := first + 1;
    }
    AllDone(s, a[first0..last], l);
  }

  lemma GcdBelow(n: nat, l: nat)
    requires 0 < l < n
    ensures 0 < Gcd(n, l) <= l
  {
    GcdDivides(n, l);
    DivMod(l, Gcd(n, l));
    AtLeastOneFactor(Gcd(n, l), l / Gcd(n, l));
  }

  /** swap_ranges. */
  method SwapRanges<T>(a: array<T>, first1: nat, last1: nat, first2: nat)
    requires first1 <= last1 <= first2 && first2 + (last1 - first1) <= a.Length
    modifies a
    ensures forall x :: 0 <= x < a.Length ==> a[x] == old(a[Partner(first1, last1, first2, x)])
  {
    var p, p2 := first1, first2;
    while p != last1
      invariant first1 <= p <= last1 && p2 - first2 == p - first1
      invariant forall x :: 0 <= x < a.Length ==> a[x] == old(a[Partner(first1, p, first2, x)])
      decreases last1 - p
    {
      a[p], a[p2] := a[p2], a[p];
      p, p2 := p + 1, p2 + 1;
    }
  }

  /** The place that [first1, last1) and the range of its length at `first2` exchange with `x`. */
  function Partner(first1: nat, last1: nat, first2: nat, x: int): int
    requires first1 <= last1
  {
    if first1 <= x < last1 then x + (first2 - first1)
    else if first2 <= x < first2 + (last1 - first1) then x - (first2 - first1)
    else x
  }

  method SwapHalves<T>(a: array<T>, first: nat, middle: nat, last: nat)
    requires first <= middle <= last <= a.Length && middle - first == last - middle
    modifies a
    ensures a[first..last] == Rotated(old(a[first..last]), middle - first)
    ensures OnlyWithin(a, first, last)
  {
    hide Rotated;
    ghost var s := a[..];
    SwapRanges(a, first, middle, middle);
    PointwiseRotated(s, a[..], first, middle, last);
    assert a[..][first..last] == a[first..last] && a[..][..first] == a[..first] && a[..][last..] == a[last..];
    assert s[first..last] == old(a[first..last]) && s[..first] == old(a[..first]) && s[last..] == old(a[last..]);
  }

  /** The iterator category selects the algorithm. */
  datatype IteratorCategory = Forward | Bidirectional | RandomAccess

  /** Whatever the category, [first, middle) and [middle, last) change places and nothing else moves. */
  method RotateRange<T>(a: array<T>, first: nat, middle: nat, last: nat, category: IteratorCategory)
    returns (newMiddle: nat)
    requires first <= middle <= last <= a.Length
    modifies a
    ensures a[first..last] == old(a[middle..last]) + old(a[first..middle])
    ensures newMiddle == first + (last - middle)
    ensures OnlyWithin(a, first, last)
  {
    if first == middle {
      return last;
    }
    if middle == last {
      return first;
    }
    ghost var s := a[first..last];
    assert s[..middle - first] == a[first..middle] && s[middle - first..] == a[middle..last];
    match category
    case Forward => newMiddle := RotateForward(a, first, middle, last);
    case Bidirectional => newMiddle := RotateBidirectional(a, first, middle, last);
    case RandomAccess => newMiddle := RotateRandom(a, first, middle, last);
  }
}

// The mixed-radix arithmetic behind the hierarchical timing wheel dbase::time::TimerMgr.

/** The arithmetic of five wheels with 256, 64, 64, 64 and 64 slots. */
module WheelArithmetic {
  import opened NumberTheory

  const WHEELS := 5
  const TICK_LIMIT := 0x1_0000_0000  // 2^32, the range of a timeout

  function Slots(w: nat): nat
  {
    if w == 0 then 256 else 64
  }

  /** Ticks per slot of wheel `w`; Base(5) is one full turn of the last wheel. */
  function Base(w: nat): nat
  {
    match w
    case 0 => 1
    case 1 => 256
    case 2 => 16384
    case 3 => 1048576
    case 4 => 67108864
    case _ => TICK_LIMIT
  }

  /** `x` slots of wheel `w`, in ticks. */
  function Span(w: nat, x: int): int
  {
    match w
    case 0 => x
    case 1 => 256 * x
    case 2 => 16384 * x
    case 3 => 1048576 * x
    case _ => 67108864 * x
  }

  /** How many slots wheel `w` has moved on after `n` ticks. */
  function Turn(n: nat, w: nat): nat
  {
    match w
    case 0 => n
    case 1 => n / 256
    case 2 => n / 16384
    case 3 => n / 1048576
    case _ => n / 67108864
  }

  /** Ticks that the wheels below `w` show on their current slots. */
  function Low(cur: seq<nat>, w: nat): nat
    requires |cur| == WHEELS
  {
    (if w > 0 then cur[0] else 0) + (if w > 1 then 256 * cur[1] else 0) +
    (if w > 2 then 16384 * cur[2] else 0) + (if w > 3 then 1048576 * cur[3] else 0)
  }

  predicate InRange(cur: seq<nat>)
  {
    |cur| == WHEELS && forall w :: 0 <= w < WHEELS ==> cur[w] < Slots(w)
  }

  datatype Slot = Slot(wheel: nat, index: nat)

  predicate ValidSlot(s: Slot)
  {
    s.wheel < WHEELS && s.index < Slots(s.wheel)
  }

  datatype Placement = Placement(slot: Slot, left: nat)

  function WheelFor(t: nat): nat
  {
    if t < 256 then 0 else if t < 16384 then 1 else if t < 1048576 then 2 else if t < 67108864 then 3 else 4
  }

  /** Where a timer of `t` ticks goes, and how many ticks are left when its slot comes up. */
  function Place(cur: seq<nat>, t: nat): (p: Placement)
    requires InRange(cur) && 1 <= t < TICK_LIMIT
  {
    var w := WheelFor(t);
    Placement(Slot(w, (Turn(t, w) + cur[w]) % Slots(w)), if w == 0 then 1 else t - Span(w, Turn(t, w)) + Low(cur, w))
  }

  /** Slots that wheel `s.wheel` must still move until `s` is current; 0 if it is current now. */
  function Distance(cur: seq<nat>, s: Slot): (d: nat)
    requires InRange(cur) && ValidSlot(s)
  {
    if s.index >= cur[s.wheel] then s.index - cur[s.wheel] else s.index + Slots(s.wheel) - cur[s.wheel]
  }

  /** The wheels after `front` of them have been moved on to tick `n`; the others still show tick n - 1. */
  function Moved(n: nat, front: nat, w: nat): nat
  {
    if w < front || n == 0 then Turn(n, w) else Turn(n - 1, w)
  }

  ghost predicate Shows(cur: seq<nat>, n: nat, front: nat)
  {
    && |cur| == WHEELS
    && cur[0] == Moved(n, front, 0) % 256
    && forall w :: 1 <= w < WHEELS ==> cur[w] == Moved(n, front, w) % 64
  }

  /** The tick at which a timer linked in slot `s` with remainder `left` runs. */
  ghost function Due(cur: seq<nat>, n: nat, front: nat, s: Slot, left: nat): int
    requires InRange(cur) && ValidSlot(s)
  {
    Span(s.wheel, Moved(n, front, s.wheel) + Distance(cur, s)) + if s.wheel == 0 then 0 else left
  }

  /** The shortest timeout that would use a wheel which has not been moved on to tick `n` yet. */
  function Horizon(n: nat, front: nat): nat
  {
    if front < WHEELS && n % Base(front) == 0 then Base(front) else TICK_LIMIT
  }

  /** The deadline that registration actually gives: exact below the horizon, `horizon` ticks early above it. */
  function Deadline(now: nat, horizon: nat, t: nat): int
  {
    if t < horizon then now + t else now + t - horizon
  }

  /** The timeout that registerTimer works with: the clock's lead is added in 32 bits and 0 becomes 1. */
  function Ticks(timeout: nat, lag: nat): (t: nat)
    ensures 1 <= t < TICK_LIMIT
  {
    var t := (lag + timeout) % TICK_LIMIT;
    if t == 0 then 1 else t
  }

  /** Timeout and lead together less a multiple of 2^32, and 1 for 0. */
  lemma TicksCounted(timeout: nat, lag: nat) returns (wraps: nat, n: nat)
    ensures timeout + lag == wraps * 0x1_0000_0000 + n && n < 0x1_0000_0000
    ensures Ticks(timeout, lag) == if n == 0 then 1 else n
  {
    wraps, n := (timeout + lag) / TICK_LIMIT, (timeout + lag) % TICK_LIMIT;
  }

  function Digits(n: nat): (cur: seq<nat>)
    ensures InRange(cur)
  {
    [n % 256, Turn(n, 1) % 64, Turn(n, 2) % 64, Turn(n, 3) % 64, Turn(n, 4) % 64]
  }

  lemma MixedRadix(n: nat, w: nat)
    requires w < WHEELS
    ensures Span(w, Turn(n, w)) + Low(Digits(n), w) == n
    ensures Low(Digits(n), w) == n % Base(w)
  {
    assert n / 16384 == n / 256 / 64 && n / 1048576 == n / 16384 / 64 && n / 67108864 == n / 1048576 / 64;
  }

  /** A step moves wheel 0, and wheel w + 1 only when wheel w has come round to slot 0. */
  ghost predicate AtStage(n: nat, front: nat)
  {
    front == WHEELS || (n >= 1 && front < WHEELS && (front > 0 ==> n % Base(front - 1) == 0))
  }

  lemma TurnOfPredecessor(n: nat, w: nat)
    requires n >= 1 && w < WHEELS
    ensures n % Base(w) == 0 ==> Turn(n, w) == Turn(n - 1, w) + 1
    ensures n % Base(w) != 0 ==> Turn(n, w) == Turn(n - 1, w)
  {
    match w {
      case 0 =>
      case 1 =>
      case 2 =>
      case 3 =>
      case 4 =>
    }
  }

  /** The slot widths of neighbouring wheels. */
  lemma Widths(n: nat, w: nat)
    requires w < WHEELS
    ensures Base(w) > 0 && Base(w + 1) == Slots(w) * Base(w) && Turn(n, w) == n / Base(w)
  {
  }

  lemma NotWrapping(n: nat, w: nat)
    requires w < WHEELS && n % Base(w) != 0
    ensures n % Base(w + 1) != 0
  {
    Widths(n, w);
    hide Base, Slots;
    if n % (Slots(w) * Base(w)) == 0 {
      FactorDivides(n, Base(w), Slots(w));
    }
  }

  lemma FactorDivides(n: nat, m: nat, k: nat)
    requires m > 0 && k > 0 && k * m > 0 && n % (k * m) == 0
    ensures n % m == 0 && n / m == k * (n / (k * m))
  {
    var e := n / (k * m);
    DivMod(n, k * m);
    assert n == m * (k * e);
    MultipleDivides(m, k * e);
  }

  /** Turns counted in slots of width m come round, k slots to a turn, when the ticks do. */
  lemma RoundAt(n: nat, m: nat, k: nat)
    requires m > 0 && k > 0 && k * m > 0 && n % m == 0
    ensures (n / m) % k == 0 <==> n % (k * m) == 0
  {
    if n % (k * m) == 0 {
      FactorDivides(n, m, k);
      MultipleDivides(k, n / (k * m));
    }
    if (n / m) % k == 0 {
      DivMod(n, m);
      DivMod(n / m, k);
      var e := n / m / k;
      assert n == (k * m) * e;
      MultipleDivides(k * m, e);
    }
  }

  lemma LowSplits(cur: seq<nat>, before: seq<nat>, front: nat, w: nat)
    requires |cur| == |before| == WHEELS && front <= w < WHEELS
    requires forall v :: 0 <= v < front ==> cur[v] == 0
    requires forall v :: front <= v < WHEELS ==> cur[v] == before[v]
    ensures Low(cur, w) == Low(before, w) - Low(before, front)
  {
  }

  lemma LowIsZero(digits: seq<nat>, w: nat)
    requires |digits| == WHEELS && w < WHEELS && Low(digits, w) == 0
    ensures forall v :: 0 <= v < w ==> digits[v] == 0
  {
  }

  lemma LastBeforeWrap(n: nat, w: nat)
    requires n >= 1 && w <= WHEELS && n % Base(w) == 0
    ensures (n - 1) % Base(w) == Base(w) - 1
  {
  }

  lemma ShowsDigits(cur: seq<nat>, n: nat, front: nat)
    requires Shows(cur, n, front) && AtStage(n, front)
    ensures front == WHEELS || n % Base(front) != 0 ==> cur == Digits(n)
    ensures forall v :: 0 <= v < front ==> cur[v] == Digits(n)[v]
    ensures forall v :: front <= v < WHEELS ==> cur[v] == Digits(n - 1)[v]
  {
    if front < WHEELS && n % Base(front) != 0 {
      forall v | front <= v < WHEELS
        ensures Turn(n, v) == Turn(n - 1, v)
      {
        StillUnmoved(n, front, v);
      }
    }
  }

  lemma NonMultiple(n: nat, front: nat, v: nat)
    requires front <= v <= WHEELS && n % Base(front) != 0
    ensures n % Base(v) != 0
    decreases v
  {
    if front < v {
      NonMultiple(n, front, v - 1);
      NotWrapping(n, v - 1);
    }
  }

  lemma StillUnmoved(n: nat, front: nat, v: nat)
    requires n >= 1 && front <= v < WHEELS && n % Base(front) != 0
    ensures Turn(n, v) == Turn(n - 1, v)
  {
    NonMultiple(n, front, v);
    TurnOfPredecessor(n, v);
  }

  /** What wheel `w` and the wheels below it show: the present tick, or Base(front) less while stale. */
  lemma ShownClock(cur: seq<nat>, n: nat, front: nat, w: nat)
    requires Shows(cur, n, front) && AtStage(n, front) && w < WHEELS
    ensures Span(w, Moved(n, front, w)) + Low(cur, w)
         == if w >= front && n % Base(front) == 0 then n - Base(front) else n
  {
    ShowsDigits(cur, n, front);
    MixedRadix(n, w);
    if front == WHEELS {
    } else if n % Base(front) != 0 {
      if w >= front {
        StillUnmoved(n, front, w);
      }
    } else if w < front {
      assert Low(cur, w) == Low(Digits(n), w);
    } else {
      StaleClock(cur, n, front, w);
    }
  }

  lemma StaleClock(cur: seq<nat>, n: nat, front: nat, w: nat)
    requires |cur| == WHEELS && n >= 1 && front <= w < WHEELS && n % Base(front) == 0
    requires forall v :: 0 <= v < front ==> cur[v] == Digits(n)[v]
    requires forall v :: front <= v < WHEELS ==> cur[v] == Digits(n - 1)[v]
    ensures Span(w, Turn(n - 1, w)) + Low(cur, w) == n - Base(front)
  {
    MixedRadix(n, front);
    LowIsZero(Digits(n), front);
    LowSplits(cur, Digits(n - 1), front, w);
    MixedRadix(n - 1, w);
    MixedRadix(n - 1, front);
    LastBeforeWrap(n, front);
  }

  lemma PlaceDistance(cur: seq<nat>, t: nat)
    requires InRange(cur) && 1 <= t < TICK_LIMIT
    ensures var p := Place(cur, t); ValidSlot(p.slot) && Distance(cur, p.slot) == Turn(t, WheelFor(t)) > 0
  {
    var w := WheelFor(t);
    LeadingDigit(t);
    hide Turn, WheelFor, Span, Low;
    Around(Slots(w), Turn(t, w), cur[w]);
  }

  lemma LeadingDigit(t: nat)
    requires 1 <= t < TICK_LIMIT
    ensures WheelFor(t) < WHEELS && 0 < Turn(t, WheelFor(t)) < Slots(WheelFor(t))
  {
  }

  /** `o` slots on from slot `c`, on a wheel of `m` slots. */
  lemma Around(m: nat, o: nat, c: nat)
    requires 0 < o < m && c < m
    ensures (o + c) % m == if o + c < m then o + c else o + c - m
  {
    if o + c >= m {
      assert o + c == m + (o + c - m);
    }
  }

  lemma PlaceRemainder(cur: seq<nat>, t: nat)
    requires InRange(cur) && 1 <= t < TICK_LIMIT
    ensures var w := WheelFor(t);
      && Span(w, Turn(t, w)) + (if w == 0 then 0 else Place(cur, t).left) == t + Low(cur, w)
      && Place(cur, t).left < 2 * Base(w)
  {
  }

  lemma WheelBelow(t: nat, front: nat)
    requires 1 <= t < TICK_LIMIT && front <= WHEELS
    ensures t < Base(front) <==> WheelFor(t) < front
  {
  }

  lemma SpanAdds(w: nat, x: int, y: int)
    ensures Span(w, x + y) == Span(w, x) + Span(w, y)
  {
  }

  /** Registration is exact below the horizon, and early by exactly the horizon above it. */
  lemma PlaceDeadline(cur: seq<nat>, n: nat, front: nat, t: nat)
    requires InRange(cur) && Shows(cur, n, front) && AtStage(n, front) && 1 <= t < TICK_LIMIT
    ensures var p := Place(cur, t);
      && ValidSlot(p.slot)
      && 0 < Distance(cur, p.slot)
      && p.left < 2 * Base(p.slot.wheel)
      && Due(cur, n, front, p.slot, p.left) == Deadline(n, Horizon(n, front), t)
  {
    hide Span, Low, Turn, Shows, Distance, Moved;
    var w := WheelFor(t);
    ShownClock(cur, n, front, w);
    PlaceDistance(cur, t);
    PlaceRemainder(cur, t);
    SpanAdds(w, Moved(n, front, w), Turn(t, w));
    WheelBelow(t, front);
  }

  /** A tick begins: every wheel still shows the previous tick. */
  lemma TickBegins(cur: seq<nat>, n: nat)
    requires Shows(cur, n, WHEELS)
    ensures Shows(cur, n + 1, 0) && AtStage(n + 1, 0)
    ensures forall w :: 0 <= w < WHEELS ==> Moved(n + 1, 0, w) == Moved(n, WHEELS, w)
  {
  }

  /** Wheel `w` moves on: timers ahead of it keep their deadlines, and only its new slot is current. */
  lemma WheelMoves(cur: seq<nat>, n: nat, w: nat, cur': seq<nat>)
    requires w < WHEELS && n >= 1 && n % Base(w) == 0
    requires InRange(cur) && Shows(cur, n, w)
    requires cur' == cur[w := (cur[w] + 1) % Slots(w)]
    ensures InRange(cur') && Shows(cur', n, w + 1) && AtStage(n, w + 1)
    ensures cur'[w] == 0 <==> n % Base(w + 1) == 0
  {
    TurnOfPredecessor(n, w);
    ComesRound(n, w);
    NextSlot(Turn(n - 1, w), w);
    assert forall v :: 0 <= v < WHEELS && v != w ==> Moved(n, w + 1, v) == Moved(n, w, v);
    hide Turn, Base;
  }

  lemma NextSlot(x: nat, w: nat)
    ensures (x % Slots(w) + 1) % Slots(w) == (x + 1) % Slots(w)
  {
    NextMod(x, Slots(w));
  }

  lemma NextMod(x: nat, m: nat)
    requires m > 1
    ensures (x % m + 1) % m == (x + 1) % m
  {
    var q, r := x / m, x % m;
    DivMod(x, m);
    if r + 1 < m {
      ModIs(x + 1, m, q, r + 1);
      ModIs(r + 1, m, 0, r + 1);
    } else {
      ModIs(x + 1, m, q + 1, 0);
      ModIs(r + 1, m, 1, 0);
    }
  }

  /** With the lower wheels all at slot 0, wheel `w` is at slot 0 exactly when the next wheel must move. */
  lemma ComesRound(n: nat, w: nat)
    requires w < WHEELS && n % Base(w) == 0
    ensures Turn(n, w) % Slots(w) == 0 <==> n % Base(w + 1) == 0
  {
    Widths(n, w);
    RoundAt(n, Base(w), Slots(w));
  }

  lemma DueAfterMove(cur: seq<nat>, n: nat, w: nat, cur': seq<nat>, s: Slot, left: nat)
    requires w < WHEELS && n >= 1 && n % Base(w) == 0
    requires InRange(cur) && InRange(cur') && ValidSlot(s) && Distance(cur, s) > 0
    requires cur' == cur[w := (cur[w] + 1) % Slots(w)]
    ensures Due(cur', n, w + 1, s, left) == Due(cur, n, w, s, left)
    ensures Distance(cur', s) == 0 ==> s == Slot(w, cur'[w])
  {
    if s.wheel == w {
      TurnOfPredecessor(n, w);
      assert Distance(cur', s) == Distance(cur, s) - 1;
    }
  }

  /** A tick ends with the first wheel that has not come round: the wheels above it were right all along. */
  lemma TickEnds(cur: seq<nat>, n: nat, front: nat)
    requires Shows(cur, n, front) && AtStage(n, front)
    requires front < WHEELS ==> n % Base(front) != 0
    ensures Shows(cur, n, WHEELS)
    ensures forall w :: 0 <= w < WHEELS ==> Moved(n, WHEELS, w) == Moved(n, front, w)
  {
    if front < WHEELS {
      forall w | front <= w < WHEELS
        ensures Turn(n, w) == Turn(n - 1, w)
      {
        StillUnmoved(n, front, w);
      }
    }
  }

  /** A timer in the slot that wheel front - 1 has just reached is due after its remainder. */
  lemma DueWhenCurrent(cur: seq<nat>, n: nat, w: nat, left: nat)
    requires w < WHEELS && n % Base(w) == 0 && InRange(cur)
    ensures Due(cur, n, w + 1, Slot(w, cur[w]), left) == if w == 0 then n else n + left
  {
  }

  /** A linked timer ahead of its wheel is due after the tick shown. */
  lemma DueAhead(cur: seq<nat>, n: nat, s: Slot, left: nat)
    requires InRange(cur) && Shows(cur, n, WHEELS) && ValidSlot(s) && Distance(cur, s) > 0
    ensures Due(cur, n, WHEELS, s, left) > n
  {
    MixedRadix(n, s.wheel);
    SpanAdds(s.wheel, Turn(n, s.wheel), Distance(cur, s));
  }
}

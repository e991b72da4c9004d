/** Non-negative integers as doubles hold them: 53 significant bits, sums and products
    rounded to the nearest, ties to even. Exponents are not bounded above. */
module Doubles {
  import opened Arithmetic

  /** 2^53: from here on not every integer is a double. */
  const LIMIT: nat := 9007199254740992

  /** The multiple of `unit` nearest to v. */
  function Nearest(v: nat, unit: nat): nat
    requires unit > 0
  {
    var r := v % unit;
    var low := v - r;
    if 2 * r < unit || (2 * r == unit && low / unit % 2 == 0) then low else low + unit
  }

  /** Numbers below `top` are multiples of `unit`, and so on by doubling. */
  function RoundFrom(v: nat, unit: nat, top: nat): nat
    requires unit > 0 && top > 0
    decreases v - top
  {
    if v < top then Nearest(v, unit) else RoundFrom(v, 2 * unit, 2 * top)
  }

  function Round(v: nat): nat { RoundFrom(v, 1, LIMIT) }

  lemma RoundSmall(v: nat)
    requires v <= LIMIT
    ensures Round(v) == v
  {
  }

  lemma RoundNext()
    ensures Round(LIMIT + 1) == LIMIT
  {
    assert RoundFrom(LIMIT + 1, 1, LIMIT) == RoundFrom(LIMIT + 1, 2, 2 * LIMIT) == Nearest(LIMIT + 1, 2);
  }

  lemma {:induction false} RoundFromLarge(v: nat, unit: nat, top: nat)
    requires unit > 0 && v >= LIMIT + 2 + unit && top >= LIMIT + 2 + 2 * unit
    ensures RoundFrom(v, unit, top) >= LIMIT + 2
    decreases v - top
  {
    if v >= top { RoundFromLarge(v, 2 * unit, 2 * top); }
  }

  lemma RoundLarge(v: nat)
    requires v >= LIMIT + 2
    ensures Round(v) >= LIMIT + 2
  {
    assert RoundFrom(v, 1, LIMIT) == RoundFrom(v, 2, 2 * LIMIT);
    if v >= LIMIT + 4 { RoundFromLarge(v, 2, 2 * LIMIT); }
  }

  // ----- what rounding is

  /** Numbers of 53 significant bits. */
  ghost predicate Representable(x: nat) { exists m: nat, e: nat :: Scaled(x, m, e) }

  predicate Scaled(x: nat, m: nat, e: nat) { m <= LIMIT && x == m * Pow2(e) }

  function Distance(a: nat, b: nat): nat { if a <= b then b - a else a - b }

  /** One of the two multiples around v, q and q + 1 times the unit. */
  lemma NearestParts(v: nat, unit: nat) returns (q: nat, r: nat)
    requires unit > 0
    ensures v == q * unit + r && r < unit
    ensures Nearest(v, unit) == (if 2 * r < unit || (2 * r == unit && q % 2 == 0) then q else q + 1) * unit
  {
    q, r := v / unit, v % unit;
    assert v == unit * q + r;
    DivIs(q * unit, unit, q, 0);
    Distribute(q, unit);
  }

  lemma Distribute(q: nat, unit: nat)
    ensures (q + 1) * unit == q * unit + unit
  {
  }

  /** What is half a unit off goes to the even multiple. */
  lemma NearestIs(v: nat, unit: nat)
    requires unit > 0
    ensures var r := Nearest(v, unit);
            && r % unit == 0 && 2 * Distance(v, r) <= unit
            && (2 * Distance(v, r) == unit ==> r / unit % 2 == 0)
  {
    hide Nearest;
    var q, r := NearestParts(v, unit);
    Distribute(q, unit);
    DivIs(q * unit, unit, q, 0);
    DivIs((q + 1) * unit, unit, q + 1, 0);
  }

  /** No multiple of the unit is nearer. */
  lemma NoMultipleNearer(v: nat, unit: nat, x: nat)
    requires unit > 0 && x % unit == 0
    ensures Distance(v, Nearest(v, unit)) <= Distance(v, x)
  {
    hide Nearest, Distance;
    var q, r := NearestParts(v, unit);
    Distribute(q, unit);
    var p := MultipleOf(x, unit);
    if p <= q { MulAtMost(p, q, unit); } else { MulAtMost(q + 1, p, unit); }
    BetweenTwo(v, q * unit, unit, r, Nearest(v, unit), x);
  }

  lemma MultipleOf(x: nat, unit: nat) returns (p: nat)
    requires unit > 0 && x % unit == 0
    ensures x == p * unit
  {
    p := x / unit;
  }

  lemma BetweenTwo(v: nat, low: nat, unit: nat, r: nat, near: nat, x: nat)
    requires v == low + r && r < unit && (x <= low || x >= low + unit)
    requires (near == low && 2 * r <= unit) || (near == low + unit && 2 * r >= unit)
    ensures Distance(v, near) <= Distance(v, x)
  {
  }

  /** A representable number is a multiple of the unit or below the numbers with this unit. */
  lemma MultipleOrBelow(x: nat, e: nat)
    requires Representable(x)
    ensures x % Pow2(e) == 0 || x <= LIMIT * Pow2(e) / 2
  {
    var m: nat, k: nat :| Scaled(x, m, k);
    if k >= e {
      Pow2Split(e, k);
      var q := m * Pow2(k - e);
      Regroup(m, Pow2(k - e), Pow2(e));
      DivIs(x, Pow2(e), q, 0);
    } else {
      Pow2Monotone(k, e);
      MulAtMost(m, LIMIT, Pow2(k));
      MulAtMost(2 * Pow2(k), Pow2(e), LIMIT);
      assert LIMIT * (2 * Pow2(k)) == 2 * (LIMIT * Pow2(k));
    }
  }

  lemma Regroup(a: nat, b: nat, c: nat)
    ensures a * (b * c) == a * b * c
  {
  }

  lemma MulAtMost(a: nat, b: nat, c: nat)
    requires a <= b
    ensures a * c <= b * c && c * a <= c * b
  {
  }

  lemma {:induction false} Pow2Split(e: nat, k: nat)
    requires e <= k
    ensures Pow2(k) == Pow2(k - e) * Pow2(e)
    decreases e
  {
    if e > 0 {
      Pow2Split(e - 1, k);
      assert Pow2(k - (e - 1)) == 2 * Pow2(k - e) && Pow2(e) == 2 * Pow2(e - 1);
      assert 2 * Pow2(k - e) * Pow2(e - 1) == Pow2(k - e) * (2 * Pow2(e - 1));
    }
  }

  lemma {:induction false} RoundFromIs(v: nat, e: nat)
    requires e == 0 || v >= LIMIT * Pow2(e) / 2
    ensures var r := RoundFrom(v, Pow2(e), LIMIT * Pow2(e));
            Representable(r) && forall x :: Representable(x) ==> Distance(v, r) <= Distance(v, x)
    decreases if v < LIMIT * Pow2(e) then 0 else v - LIMIT * Pow2(e) + 1
  {
    var unit := Pow2(e);
    if v < LIMIT * unit {
      NearestFits(v, e);
      forall x | Representable(x) ensures Distance(v, Nearest(v, unit)) <= Distance(v, x) {
        MultipleOrBelow(x, e);
        if x % unit == 0 { NoMultipleNearer(v, unit, x); } else { HalfTop(v, e, x); }
      }
    } else {
      assert Pow2(e + 1) == 2 * unit && LIMIT * Pow2(e + 1) == 2 * (LIMIT * unit);
      RoundFromIs(v, e + 1);
    }
  }

  lemma NearestFits(v: nat, e: nat)
    requires v < LIMIT * Pow2(e)
    ensures Representable(Nearest(v, Pow2(e)))
  {
    hide Nearest, Pow2;
    var q, r := NearestParts(v, Pow2(e));
    if q >= LIMIT { MulAtMost(LIMIT, q, Pow2(e)); }
    assert Scaled(q * Pow2(e), q, e) && Scaled((q + 1) * Pow2(e), q + 1, e);
  }

  /** What is below is no nearer than where this unit starts. */
  lemma HalfTop(v: nat, e: nat, x: nat)
    requires e > 0 && LIMIT * Pow2(e) / 2 <= v && x <= LIMIT * Pow2(e) / 2
    ensures Distance(v, Nearest(v, Pow2(e))) <= Distance(v, x)
  {
    var half := LIMIT / 2 * Pow2(e);
    assert 2 * half == LIMIT * Pow2(e);
    DivIs(half, Pow2(e), LIMIT / 2, 0);
    NoMultipleNearer(v, Pow2(e), half);
  }

  /** Rounding gives a number of 53 significant bits, and none is nearer. */
  lemma RoundNearest(v: nat)
    ensures Representable(Round(v)) && forall x :: Representable(x) ==> Distance(v, Round(v)) <= Distance(v, x)
  {
    assert Pow2(0) == 1;
    RoundFromIs(v, 0);
  }

  // ----- reading digits

  /** integer * 10 + digit */
  function Accumulate(acc: nat, digit: nat): nat { Round(Round(10 * acc) + digit) }

  /** What a double holds of the integer v read digit by digit, as far as 2^53 goes. */
  ghost predicate Holds(v: nat, x: nat) {
    && (v <= LIMIT ==> x == v)
    && (v == LIMIT + 1 ==> x == LIMIT)
    && (v >= LIMIT + 2 ==> x >= LIMIT + 2)
  }

  lemma AccumulateHolds(v: nat, x: nat, digit: nat)
    requires Holds(v, x) && digit < 10
    ensures Holds(10 * v + digit, Accumulate(x, digit))
  {
    hide Round;
    if 10 * x <= LIMIT {
      RoundSmall(10 * x);
      RoundAs(10 * x + digit);
    } else {
      RoundLarge(10 * x);
      RoundLarge(Round(10 * x) + digit);
    }
  }

  lemma RoundAs(v: nat)
    ensures Holds(v, Round(v))
  {
    hide Round;
    if v <= LIMIT { RoundSmall(v); } else if v == LIMIT + 1 { RoundNext(); } else { RoundLarge(v); }
  }

  // ----- counting

  /** A double that starts at 0, after n increments. */
  function Counter(n: nat): nat {
    if n == 0 then 0 else Round(Counter(n - 1) + 1)
  }

  /** It counts to 2^53 and stays there. */
  lemma {:induction false} CounterIs(n: nat)
    ensures Counter(n) == if n < LIMIT then n else LIMIT
    decreases n
  {
    hide Round;
    if n > 0 {
      CounterIs(n - 1);
      RoundAs(Counter(n - 1) + 1);
    }
  }

  /** for (double i = 0; i < bound; i++) comes to its end. */
  ghost predicate LoopEnds(bound: nat) {
    exists n: nat :: Counter(n) >= bound
  }

  lemma LoopEndsIff(bound: nat)
    ensures LoopEnds(bound) <==> bound <= LIMIT
  {
    CounterIs(bound);
    if n: nat :| Counter(n) >= bound { CounterIs(n); }
    if bound <= LIMIT { assert Counter(bound) >= bound; }
  }
}

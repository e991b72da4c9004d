/** Powers of two and division, where several components need them. */
module Arithmetic {
  function Pow2(n: nat): (p: nat)
    ensures p > 0
  {
    if n == 0 then 1 else 2 * Pow2(n - 1)
  }

  /** x >> n */
  function ShiftRight(x: nat, n: nat): nat
    decreases n
  {
    if n == 0 then x else ShiftRight(x / 2, n - 1)
  }

  lemma {:induction false} Pow2Monotone(a: nat, b: nat)
    requires a <= b
    ensures Pow2(a) <= Pow2(b)
    ensures a < b ==> 2 * Pow2(a) <= Pow2(b)
    decreases b - a
  {
    if a < b { Pow2Monotone(a + 1, b); }
  }

  lemma DivIs(x: int, m: int, q: int, r: int)
    requires 0 <= r < m && x == q * m + r
    ensures x / m == q && x % m == r
  {
    var q', r' := x / m, x % m;
    assert x == m * q' + r';
    assert m * (q' - q) == r - r';
    if q' != q {
      MultipleIsLarge(m, q' - q);
    }
  }

  lemma MultipleIsLarge(m: int, d: int)
    requires m > 0 && d != 0
    ensures m * d >= m || m * d <= -m
  {
    if d >= 1 {
      assert m * d >= m * 1;
    } else {
      assert m * -d >= m * 1;
    }
  }

  // ----- exclusive or

  /** Exclusive or of the low n bits. */
  function Xor(a: nat, b: nat, n: nat): nat {
    if n == 0 then 0 else (a % 2 + b % 2) % 2 + 2 * Xor(a / 2, b / 2, n - 1)
  }

  lemma {:induction false} XorBelow(a: nat, b: nat, n: nat)
    ensures Xor(a, b, n) < Pow2(n)
    decreases n
  {
    if n > 0 { XorBelow(a / 2, b / 2, n - 1); }
  }

  lemma XorStep(a: nat, b: nat, n: nat)
    ensures Xor(a, b, n + 1) == (a % 2 + b % 2) % 2 + 2 * Xor(a / 2, b / 2, n)
  {
  }

  lemma XorParts(a: nat, b: nat, n: nat)
    ensures var x := Xor(a, b, n + 1); x % 2 == (a % 2 + b % 2) % 2 && x / 2 == Xor(a / 2, b / 2, n)
  {
    XorStep(a, b, n);
    hide Xor;
  }

  lemma BitTwice(a: nat, b: nat, x: nat)
    requires x % 2 == (a % 2 + b % 2) % 2
    ensures (x % 2 + b % 2) % 2 == a % 2
  {
  }

  lemma {:induction false} XorTwice(a: nat, b: nat, n: nat)
    requires a < Pow2(n)
    ensures Xor(Xor(a, b, n), b, n) == a
    decreases n
  {
    if n > 0 {
      assert a / 2 < Pow2(n - 1);
      XorTwice(a / 2, b / 2, n - 1);
      XorParts(a, b, n - 1);
      var x := Xor(a, b, n);
      BitTwice(a, b, x);
      Rejoined(x, b, n - 1, a);
    }
  }

  lemma Rejoined(x: nat, b: nat, n: nat, a: nat)
    requires (x % 2 + b % 2) % 2 == a % 2 && Xor(x / 2, b / 2, n) == a / 2
    ensures Xor(x, b, n + 1) == a
  {
    XorStep(x, b, n);
    hide Xor;
  }

  /** Binary digit k of x. */
  function Digit(x: nat, k: nat): nat { x / Pow2(k) % 2 }

  lemma DigitNext(x: nat, k: nat)
    ensures Digit(x, k + 1) == Digit(x / 2, k)
  {
    QuotientTwice(x, 2, Pow2(k));
  }

  lemma QuotientTwice(x: nat, a: nat, b: nat)
    requires a > 0 && b > 0
    ensures a * b > 0 && x / (a * b) == x / a / b
  {
    var q, r := x / a / b, x / a % b;
    assert x / a == b * q + r;
    assert x == a * (x / a) + x % a;
    assert a * (b * q + r) == a * b * q + a * r;
    assert r <= b - 1;
    RemainderBelow(a, b, r, x % a);
    DivIs(x, a * b, q, a * r + x % a);
  }

  lemma RemainderBelow(a: nat, b: nat, r: nat, s: nat)
    requires r < b && s < a
    ensures 0 <= a * r + s < a * b
  {
    assert a * r <= a * (b - 1);
  }

  /** Every digit of an exclusive or is the sum of the two digits without the carry. */
  lemma {:induction false} XorDigit(a: nat, b: nat, n: nat, k: nat)
    requires k < n
    ensures Digit(Xor(a, b, n), k) == (Digit(a, k) + Digit(b, k)) % 2
    decreases n
  {
    hide Xor, Digit, Pow2;
    XorParts(a, b, n - 1);
    var x := Xor(a, b, n);
    if k == 0 {
      DigitZero(a);
      DigitZero(b);
      DigitZero(x);
    } else {
      XorDigit(a / 2, b / 2, n - 1, k - 1);
      DigitNext(a, k - 1);
      DigitNext(b, k - 1);
      DigitNext(x, k - 1);
    }
  }

  lemma DigitZero(x: nat)
    ensures Digit(x, 0) == x % 2
  {
    assert Pow2(0) == 1;
  }

  lemma {:induction false} XorZero(a: nat, n: nat)
    requires a < Pow2(n)
    ensures Xor(a, 0, n) == a
    decreases n
  {
    if n > 0 {
      XorZero(a / 2, n - 1);
      XorStep(a, 0, n - 1);
    }
  }

  lemma {:induction false} XorLow(a: nat, b: nat, k: nat, n: nat)
    requires k <= n
    ensures Xor(a, b, n) % Pow2(k) == Xor(a, b, k)
    decreases k
  {
    if k == 0 {
      assert Pow2(0) == 1;
    } else {
      XorLow(a / 2, b / 2, k - 1, n - 1);
      XorBelow(a / 2, b / 2, k - 1);
      XorStep(a, b, n - 1);
      XorStep(a, b, k - 1);
      DoubledRemainder((a % 2 + b % 2) % 2, Xor(a / 2, b / 2, n - 1), Pow2(k - 1));
    }
  }

  lemma DoubledRemainder(b: nat, v: nat, p: nat)
    requires b < 2 && p > 0
    ensures (b + 2 * v) % (2 * p) == b + 2 * (v % p)
  {
    var q, r := v / p, v % p;
    assert v == p * q + r;
    assert b + 2 * v == q * (2 * p) + (b + 2 * r);
    DivIs(b + 2 * v, 2 * p, q, b + 2 * r);
  }
}

/** 32-bit words and the numbers they hold: shifts are products and quotients, masks are
    remainders, an or of words without common digits is a sum. The operations have names
    that proofs can hide, so that the bit-vector solver sees few of them at a time. */
module Words {
  import opened Arithmetic

  type U32 = bv32

  function Half(x: U32): U32 { x >> 1 }

  function Bit(x: U32): (b: nat)
    ensures b < 2
  {
    if x & 1 == 1 then 1 else 0
  }

  /** The number that the lowest n binary digits of x spell. */
  function Digits(x: U32, n: nat): nat {
    if n == 0 then 0 else Bit(x) + 2 * Digits(Half(x), n - 1)
  }

  function Value(x: U32): nat { Digits(x, 32) }

  /** x has no digits beyond the lowest n. */
  predicate Fits(x: U32, n: nat) { if n == 0 then x == 0 else Fits(Half(x), n - 1) }

  /** m is n ones. */
  predicate Ones(m: U32, n: nat) { if n == 0 then m == 0 else Bit(m) == 1 && Ones(Half(m), n - 1) }

  function And(a: U32, b: U32): U32 { a & b }

  function Or(a: U32, b: U32): U32 { a | b }

  function Next(a: U32): U32 { a + 1 }

  function Differ(a: U32, b: U32): U32 { a ^ b }

  predicate AtMost(a: U32, b: U32) { a <= b }

  // ----- the digits of single operations

  lemma ZeroIs()
    ensures Half(0) == 0 && Bit(0) == 0
  {
  }

  lemma AndIs(x: U32, m: U32)
    ensures Half(And(x, m)) == And(Half(x), Half(m)) && And(x, 0) == 0
    ensures Bit(m) == 1 ==> Bit(And(x, m)) == Bit(x)
  {
  }

  lemma OrIs(a: U32, b: U32)
    requires And(a, b) == 0
    ensures Half(Or(a, b)) == Or(Half(a), Half(b)) && And(Half(a), Half(b)) == 0
    ensures Bit(Or(a, b)) == Bit(a) + Bit(b)
  {
    OrBits(a, b);
  }

  lemma OrBits(a: U32, b: U32)
    requires a & b == 0
    ensures a & 1 != 1 || b & 1 != 1
    ensures (a | b) & 1 == 1 <==> a & 1 == 1 || b & 1 == 1
  {
  }

  lemma DifferIs(a: U32, b: U32)
    ensures Half(Differ(a, b)) == Differ(Half(a), Half(b))
    ensures Bit(Differ(a, b)) == (Bit(a) + Bit(b)) % 2
  {
    DifferBits(a, b);
  }

  lemma DifferBits(a: U32, b: U32)
    ensures (a ^ b) & 1 == 1 <==> (a & 1 == 1 <==> b & 1 != 1)
  {
  }

  lemma NextIs(x: U32)
    requires x != 0xffff_ffff
    ensures Next(x) != 0 && Half(x) != 0xffff_ffff
    ensures Bit(x) == 0 ==> Bit(Next(x)) == 1 && Half(Next(x)) == Half(x)
    ensures Bit(x) == 1 ==> Bit(Next(x)) == 0 && Half(Next(x)) == Next(Half(x))
  {
  }

  lemma OrderIs(a: U32, b: U32)
    requires AtMost(a, b)
    ensures AtMost(Half(a), Half(b)) && (Half(a) == Half(b) ==> Bit(a) <= Bit(b))
  {
  }

  lemma SameIs(a: U32, b: U32)
    requires Half(a) == Half(b) && Bit(a) == Bit(b)
    ensures a == b
  {
  }

  // ----- the numbers

  function HalfFour(x: U32): U32 { Half(Half(Half(Half(x)))) }

  lemma {:induction false} FourMore(x: U32, n: nat)
    ensures Fits(x, n + 4) == Fits(HalfFour(x), n)
  {
    hide Half;
    var a := Half(x);
    var b := Half(a);
    var c := Half(b);
    assert Fits(x, n + 4) == Fits(a, n + 3) == Fits(b, n + 2) == Fits(c, n + 1) == Fits(Half(c), n);
  }

  lemma AllFit(x: U32)
    ensures Fits(x, 32)
  {
    hide Half, HalfFour, Fits;
    var (a, b, c) := (HalfFour(x), HalfFour(HalfFour(x)), HalfFour(HalfFour(HalfFour(x))));
    var (d, e, f) := (HalfFour(c), HalfFour(HalfFour(c)), HalfFour(HalfFour(HalfFour(c))));
    FourMore(x, 28);
    FourMore(a, 24);
    FourMore(b, 20);
    FourMore(c, 16);
    FourMore(d, 12);
    FourMore(e, 8);
    FourMore(f, 4);
    FourMore(HalfFour(f), 0);
    NothingLeft(x);
    NoneFits();
  }

  lemma NothingLeft(x: U32)
    ensures HalfFour(HalfFour(HalfFour(HalfFour(HalfFour(HalfFour(HalfFour(HalfFour(x)))))))) == 0
  {
  }

  lemma NoneFits()
    ensures Fits(0, 0)
  {
  }

  lemma {:induction false} DigitsBeyond(x: U32, n: nat)
    requires Fits(x, n)
    ensures Digits(x, n + 1) == Digits(x, n)
    decreases n
  {
    hide Half, Bit;
    if n > 0 { DigitsBeyond(Half(x), n - 1); } else { ZeroIs(); }
  }

  lemma {:induction false} ZeroDigits(n: nat)
    ensures Digits(0, n) == 0 && Fits(0, n)
  {
    hide Half, Bit;
    ZeroIs();
    if n > 0 { ZeroDigits(n - 1); }
  }

  lemma {:induction false} DigitsSame(a: U32, b: U32, n: nat)
    requires Fits(a, n) && Fits(b, n) && Digits(a, n) == Digits(b, n)
    ensures a == b
    decreases n
  {
    hide Half, Bit;
    if n > 0 {
      DigitsSame(Half(a), Half(b), n - 1);
      SameIs(a, b);
    }
  }

  /** Words are ordered as the numbers they hold. */
  lemma {:induction false} DigitsOrder(a: U32, b: U32, n: nat)
    requires Fits(a, n) && Fits(b, n) && AtMost(a, b)
    ensures Digits(a, n) <= Digits(b, n)
    decreases n
  {
    hide Half, Bit, AtMost;
    if n > 0 {
      OrderIs(a, b);
      DigitsOrder(Half(a), Half(b), n - 1);
      if Digits(Half(a), n - 1) == Digits(Half(b), n - 1) { DigitsSame(Half(a), Half(b), n - 1); }
    }
  }

  lemma ValueOrder(a: U32, b: U32)
    ensures a <= b <==> Value(a) <= Value(b)
    ensures a == b <==> Value(a) == Value(b)
  {
    hide Digits, Fits;
    AllFit(a);
    AllFit(b);
    if AtMost(a, b) { DigitsOrder(a, b, 32); } else { DigitsOrder(b, a, 32); }
    if Value(a) == Value(b) { DigitsSame(a, b, 32); }
  }

  lemma {:induction false} MaskDigits(x: U32, m: U32, k: nat, n: nat)
    requires Ones(m, k) && k <= n
    ensures Digits(And(x, m), n) == Digits(x, n) % Pow2(k)
    decreases k
  {
    hide Half, Bit, And;
    AndIs(x, m);
    if k == 0 {
      ZeroDigits(n);
    } else {
      MaskDigits(Half(x), Half(m), k - 1, n - 1);
      DoubledRemainder(Bit(x), Digits(Half(x), n - 1), Pow2(k - 1));
    }
  }

  lemma {:induction false} OrDigits(a: U32, b: U32, n: nat)
    requires And(a, b) == 0
    ensures Digits(Or(a, b), n) == Digits(a, n) + Digits(b, n)
    decreases n
  {
    hide Half, Bit, And, Or;
    OrIs(a, b);
    if n > 0 { OrDigits(Half(a), Half(b), n - 1); }
  }

  lemma {:induction false} DifferDigits(a: U32, b: U32, n: nat)
    ensures Digits(Differ(a, b), n) == Xor(Digits(a, n), Digits(b, n), n)
    decreases n
  {
    hide Half, Bit, Differ, Digits, Xor;
    if n == 0 {
      NoDigits(Differ(a, b), a, b);
    } else {
      DifferIs(a, b);
      DifferDigits(Half(a), Half(b), n - 1);
      DigitsSplit(a, n);
      DigitsSplit(b, n);
      DigitsSplit(Differ(a, b), n);
      XorSplit(Digits(a, n), Digits(b, n), n);
    }
  }

  lemma NoDigits(x: U32, a: U32, b: U32)
    ensures Digits(x, 0) == 0 == Xor(Digits(a, 0), Digits(b, 0), 0)
  {
  }

  lemma XorSplit(a: nat, b: nat, n: nat)
    requires n > 0
    ensures Xor(a, b, n) == (a % 2 + b % 2) % 2 + 2 * Xor(a / 2, b / 2, n - 1)
  {
  }

  lemma DigitsSplit(x: U32, n: nat)
    requires n > 0
    ensures Digits(x, n) == Bit(x) + 2 * Digits(Half(x), n - 1)
    ensures Digits(x, n) % 2 == Bit(x) && Digits(x, n) / 2 == Digits(Half(x), n - 1)
  {
    hide Half, Bit;
    assert Digits(x, n) == Bit(x) + 2 * Digits(Half(x), n - 1);
    hide Digits;
    DivIs(Digits(x, n), 2, Digits(Half(x), n - 1), Bit(x));
  }

  lemma {:induction false} NextDigits(x: U32, n: nat)
    requires x != 0xffff_ffff && Fits(Next(x), n)
    ensures Digits(Next(x), n) == Digits(x, n) + 1
    decreases n
  {
    hide Half, Bit, Next;
    NextIs(x);
    if n > 0 && Bit(x) == 1 { NextDigits(Half(x), n - 1); }
  }

  // ----- words and their numbers

  lemma ValueHalf(x: U32)
    ensures Value(x) == 2 * Value(Half(x)) + Bit(x)
  {
    hide Half, Bit;
    AllFit(x);
    DigitsBeyond(Half(x), 31);
  }

  lemma ValueAnd(x: U32, m: U32, k: nat)
    requires Ones(m, k) && k <= 32
    ensures Value(And(x, m)) == Value(x) % Pow2(k)
  {
    hide Digits, Ones, And;
    MaskDigits(x, m, k, 32);
  }

  lemma ValueOr(a: U32, b: U32)
    requires And(a, b) == 0
    ensures Value(Or(a, b)) == Value(a) + Value(b)
  {
    hide Digits, And, Or;
    OrDigits(a, b, 32);
  }

  lemma ValueDiffer(a: U32, b: U32)
    ensures Value(Differ(a, b)) == Xor(Value(a), Value(b), 32)
  {
    hide Digits, Differ;
    DifferDigits(a, b, 32);
  }

  lemma ValueNext(x: U32)
    requires x != 0xffff_ffff
    ensures Value(Next(x)) == Value(x) + 1
  {
    hide Digits, Fits, Next;
    AllFit(Next(x));
    NextDigits(x, 32);
  }

  lemma {:induction false} OnesDigits(m: U32, k: nat, n: nat)
    requires Ones(m, k) && k <= n
    ensures Digits(m, n) == Pow2(k) - 1
    decreases k
  {
    hide Half, Bit;
    if k == 0 { ZeroDigits(n); } else { OnesDigits(Half(m), k - 1, n - 1); }
  }

  lemma ValueOnes(m: U32, k: nat)
    requires Ones(m, k) && k <= 32
    ensures Value(m) == Pow2(k) - 1
  {
    hide Digits, Ones;
    OnesDigits(m, k, 32);
  }

  // ----- shifts

  /** x >> n and x << n, one place at a time. */
  function Right(x: U32, n: nat): U32 { if n == 0 then x else Half(Right(x, n - 1)) }

  function Left(x: U32, n: nat): U32 { if n == 0 then x else Double(Left(x, n - 1)) }

  function Double(x: U32): U32 { x << 1 }

  lemma {:induction false} ValueRight(x: U32, n: nat)
    ensures Value(Right(x, n)) == Value(x) / Pow2(n)
    decreases n
  {
    hide Value, Half, Bit;
    if n > 0 {
      ValueRight(x, n - 1);
      ValueHalf(Right(x, n - 1));
      HalfOfQuotient(Value(x), Pow2(n - 1));
    }
  }

  lemma HalfOfQuotient(v: nat, p: nat)
    requires p > 0
    ensures v / p / 2 == v / (2 * p)
  {
    var q, r := v / p, v % p;
    assert v == p * q + r;
    var h, b := q / 2, q % 2;
    assert q == 2 * h + b;
    assert v == h * (2 * p) + (b * p + r);
    DivIs(v, 2 * p, h, b * p + r);
  }

  lemma RightNext(x: U32, n: nat)
    ensures Right(x, 0) == x && Right(x, n + 1) == Half(Right(x, n))
  {
    hide Half;
  }

  lemma RightFour(x: U32, n: nat)
    ensures Right(x, n + 4) == HalfFour(Right(x, n))
  {
    RightNext(x, n);
    RightNext(x, n + 1);
    RightNext(x, n + 2);
    RightNext(x, n + 3);
    hide Right, Half;
  }

  lemma RightNested(x: U32)
    ensures Right(x, 1) == Half(x) && Right(x, 2) == Half(Half(x)) && Right(x, 4) == HalfFour(x)
    ensures Right(x, 6) == HalfFour(Half(Half(x))) && Right(x, 7) == Half(HalfFour(Half(Half(x))))
    ensures Right(x, 15) == HalfFour(HalfFour(Half(HalfFour(Half(Half(x))))))
  {
    hide Right, Half, HalfFour;
    RightNext(x, 0);
    RightNext(x, 1);
    RightFour(x, 0);
    RightFour(x, 2);
    RightNext(x, 6);
    RightFour(x, 7);
    RightFour(x, 11);
  }

  lemma RightNestedBytes(x: U32)
    ensures Right(x, 8) == HalfFour(HalfFour(x)) && Right(x, 12) == HalfFour(HalfFour(HalfFour(x)))
    ensures Right(x, 16) == HalfFour(HalfFour(HalfFour(HalfFour(x))))
    ensures Right(x, 24) == HalfFour(HalfFour(HalfFour(HalfFour(HalfFour(HalfFour(x))))))
  {
    hide Right, Half, HalfFour;
    RightNext(x, 0);
    RightFour(x, 0);
    RightFour(x, 4);
    RightFour(x, 8);
    RightFour(x, 12);
    RightFour(x, 16);
    RightFour(x, 20);
  }

  // One shift at a time: together they are too much for the bit-vector solver.

  lemma HalfTwo(x: U32)
    ensures Half(Half(x)) == x >> 2
  {
  }

  lemma HalfSix(x: U32)
    ensures HalfFour(Half(Half(x))) == x >> 6
  {
  }

  lemma HalfSeven(x: U32)
    ensures Half(HalfFour(Half(Half(x)))) == x >> 7
  {
  }

  lemma HalfEight(x: U32)
    ensures HalfFour(HalfFour(x)) == x >> 8
  {
  }

  lemma HalfTwelve(x: U32)
    ensures HalfFour(HalfFour(HalfFour(x))) == x >> 12
  {
  }

  lemma HalfFifteen(x: U32)
    ensures HalfFour(HalfFour(Half(HalfFour(Half(Half(x)))))) == x >> 15
  {
  }

  lemma HalfSixteen(x: U32)
    ensures HalfFour(HalfFour(HalfFour(HalfFour(x)))) == x >> 16
  {
  }

  lemma HalfTwentyFour(x: U32)
    ensures HalfFour(HalfFour(HalfFour(HalfFour(HalfFour(HalfFour(x)))))) == x >> 24
  {
  }

  lemma RightIs(x: U32)
    ensures Right(x, 1) == Half(x) && Right(x, 2) == x >> 2 && Right(x, 6) == x >> 6 && Right(x, 7) == x >> 7
    ensures Right(x, 15) == x >> 15
  {
    hide Right, Half, HalfFour;
    RightNested(x);
    HalfTwo(x);
    HalfSix(x);
    HalfSeven(x);
    HalfFifteen(x);
  }

  lemma RightBytes(x: U32)
    ensures Right(x, 8) == x >> 8 && Right(x, 12) == x >> 12 && Right(x, 16) == x >> 16 && Right(x, 24) == x >> 24
  {
    hide Right, Half, HalfFour;
    RightNestedBytes(x);
    HalfEight(x);
    HalfTwelve(x);
    HalfSixteen(x);
    HalfTwentyFour(x);
  }

  lemma DoubleIs(x: U32)
    requires AtMost(x, 0x7fff_ffff)
    ensures Half(Double(x)) == x && Bit(Double(x)) == 0
  {
  }

  lemma {:induction false} ValueLeft(x: U32, n: nat)
    requires Value(x) * Pow2(n) < Pow2(32)
    ensures Value(Left(x, n)) == Value(x) * Pow2(n)
    decreases n
  {
    hide Value, Double, Left, Pow2;
    LeftPower(x, n);
    if n > 0 {
      DoubledProduct(Value(x), Pow2(n - 1));
      ValueLeft(x, n - 1);
      ValueDouble(Left(x, n - 1));
    }
  }

  lemma LeftPower(x: U32, n: nat)
    ensures Pow2(n) == if n == 0 then 1 else 2 * Pow2(n - 1)
    ensures Left(x, n) == if n == 0 then x else Double(Left(x, n - 1))
  {
  }

  lemma DoubledProduct(v: nat, p: nat)
    ensures v * (2 * p) == 2 * (v * p)
  {
  }

  lemma ValueDouble(y: U32)
    requires 2 * Value(y) < Pow2(32)
    ensures Value(Double(y)) == 2 * Value(y)
  {
    hide Value, Half, Bit, Double, AtMost, Pow2;
    BelowTop(y);
    DoubleIs(y);
    ValueHalf(Double(y));
  }

  lemma BelowTop(y: U32)
    requires 2 * Value(y) < Pow2(32)
    ensures AtMost(y, 0x7fff_ffff)
  {
    hide Value, Digits;
    MaskConstants();
    BelowOnes(y, 0x7fff_ffff, 31);
  }

  function DoubleFour(x: U32): U32 { Double(Double(Double(Double(x)))) }

  lemma LeftNext(x: U32, n: nat)
    ensures Left(x, 0) == x && Left(x, n + 1) == Double(Left(x, n))
  {
    hide Double;
  }

  lemma LeftFour(x: U32, n: nat)
    ensures Left(x, n + 4) == DoubleFour(Left(x, n))
  {
    LeftNext(x, n);
    LeftNext(x, n + 1);
    LeftNext(x, n + 2);
    LeftNext(x, n + 3);
    hide Left, Double;
  }

  lemma LeftNested(x: U32)
    ensures Left(x, 2) == Double(Double(x)) && Left(x, 6) == DoubleFour(Double(Double(x)))
    ensures Left(x, 7) == Double(DoubleFour(Double(Double(x))))
    ensures Left(x, 15) == DoubleFour(DoubleFour(Double(DoubleFour(Double(Double(x))))))
  {
    hide Left, Double, DoubleFour;
    LeftNext(x, 0);
    LeftNext(x, 1);
    LeftFour(x, 2);
    LeftNext(x, 6);
    LeftFour(x, 7);
    LeftFour(x, 11);
  }

  lemma DoubleTwo(x: U32)
    ensures Double(Double(x)) == x << 2
  {
  }

  lemma DoubleSix(x: U32)
    ensures DoubleFour(Double(Double(x))) == x << 6
  {
  }

  lemma DoubleSeven(x: U32)
    ensures Double(DoubleFour(Double(Double(x)))) == x << 7
  {
  }

  lemma DoubleFifteen(x: U32)
    ensures DoubleFour(DoubleFour(Double(DoubleFour(Double(Double(x)))))) == x << 15
  {
  }

  lemma DoubleEight(x: U32)
    ensures DoubleFour(DoubleFour(x)) == x << 8
  {
  }

  lemma DoubleSixteen(x: U32)
    ensures DoubleFour(DoubleFour(DoubleFour(DoubleFour(x)))) == x << 16
  {
  }

  lemma DoubleTwentyFour(x: U32)
    ensures DoubleFour(DoubleFour(DoubleFour(DoubleFour(DoubleFour(DoubleFour(x)))))) == x << 24
  {
  }

  lemma LeftNestedBytes(x: U32)
    ensures Left(x, 8) == DoubleFour(DoubleFour(x))
    ensures Left(x, 16) == DoubleFour(DoubleFour(DoubleFour(DoubleFour(x))))
    ensures Left(x, 24) == DoubleFour(DoubleFour(DoubleFour(DoubleFour(DoubleFour(DoubleFour(x))))))
  {
    hide Left, Double, DoubleFour;
    LeftNext(x, 0);
    LeftFour(x, 0);
    LeftFour(x, 4);
    LeftFour(x, 8);
    LeftFour(x, 12);
    LeftFour(x, 16);
    LeftFour(x, 20);
  }

  lemma LeftBytes(x: U32)
    ensures Left(x, 8) == x << 8 && Left(x, 16) == x << 16 && Left(x, 24) == x << 24
  {
    hide Left, Double, DoubleFour;
    LeftNestedBytes(x);
    DoubleEight(x);
    DoubleSixteen(x);
    DoubleTwentyFour(x);
  }

  lemma LeftIs(x: U32)
    ensures Left(x, 2) == x << 2 && Left(x, 6) == x << 6 && Left(x, 7) == x << 7 && Left(x, 15) == x << 15
  {
    hide Left, Double, DoubleFour;
    LeftNested(x);
    DoubleTwo(x);
    DoubleSix(x);
    DoubleSeven(x);
    DoubleFifteen(x);
  }

  // ----- constants

  lemma OnesFour(m: U32, h: U32, n: nat)
    requires m & 15 == 15 && m >> 4 == h && Ones(h, n)
    ensures Ones(m, n + 4)
  {
    FourOnes(m);
    hide Half, Bit;
    var a := Half(m);
    var b := Half(a);
    var c := Half(b);
    assert Ones(Half(c), n);
    assert Ones(c, n + 1) && Ones(b, n + 2) && Ones(a, n + 3);
  }

  lemma FourOnes(m: U32)
    requires m & 15 == 15
    ensures Half(Half(Half(Half(m)))) == m >> 4
    ensures Bit(m) == 1 && Bit(Half(m)) == 1 && Bit(Half(Half(m))) == 1 && Bit(Half(Half(Half(m)))) == 1
  {
  }

  lemma FewOnes()
    ensures Ones(0, 0) && Ones(1, 1) && Ones(3, 2) && Ones(7, 3)
  {
  }

  lemma MaskConstants()
    ensures Ones(1, 1) && Ones(3, 2) && Ones(15, 4) && Ones(31, 5) && Ones(63, 6) && Ones(127, 7) && Ones(255, 8)
    ensures Ones(1023, 10) && Ones(4095, 12) && Ones(16383, 14) && Ones(0xffff, 16) && Ones(0x1ffff, 17)
    ensures Ones(0xff_ffff, 24) && Ones(0x7fff_ffff, 31)
  {
    hide Ones;
    FewOnes();
    OnesFour(15, 0, 0);
    OnesFour(31, 1, 1);
    OnesFour(63, 3, 2);
    OnesFour(127, 7, 3);
    OnesFour(255, 15, 4);
    OnesFour(1023, 63, 6);
    OnesFour(0x3fff, 0x3ff, 10);
    OnesFour(0xfff, 0xff, 8);
    OnesFour(0xffff, 0xfff, 12);
    OnesFour(0x1ff, 0x1f, 5);
    OnesFour(0x1fff, 0x1ff, 9);
    OnesFour(0x1ffff, 0x1fff, 13);
    OnesFour(0xf_ffff, 0xffff, 16);
    OnesFour(0xff_ffff, 0xf_ffff, 20);
    OnesFour(0x7ff, 0x7f, 7);
    OnesFour(0x7fff, 0x7ff, 11);
    OnesFour(0x7_ffff, 0x7fff, 15);
    OnesFour(0x7f_ffff, 0x7_ffff, 19);
    OnesFour(0x7ff_ffff, 0x7f_ffff, 23);
    OnesFour(0x7fff_ffff, 0x7ff_ffff, 27);
  }

  lemma Numerals()
    ensures Value(0) == 0 && Value(1) == 1 && Value(2) == 2 && Value(3) == 3
  {
    hide Value;
    SmallBits();
    ValueZero();
    ValueHalf(1);
    ValueHalf(2);
    ValueHalf(3);
  }

  lemma ValueZero()
    ensures Value(0) == 0
  {
    ZeroDigits(32);
  }

  lemma SmallBits()
    ensures Half(1) == 0 && Bit(1) == 1 && Half(2) == 1 && Bit(2) == 0 && Half(3) == 1 && Bit(3) == 1
  {
  }

  lemma LargerNumerals()
    ensures Value(18) == 18 && Value(33) == 33
  {
    hide Value, Half, Bit;
    Numerals();
    LargerBits();
    ValueHalf(18);
    ValueHalf(9);
    ValueHalf(4);
    ValueHalf(33);
    ValueHalf(16);
    ValueHalf(8);
  }

  lemma LargerBits()
    ensures Half(18) == 9 && Bit(18) == 0 && Half(9) == 4 && Bit(9) == 1 && Half(4) == 2 && Bit(4) == 0
    ensures Half(33) == 16 && Bit(33) == 1 && Half(16) == 8 && Bit(16) == 0 && Half(8) == 4 && Bit(8) == 0
  {
  }

  // ----- fields and small sums

  lemma MaskedRight(x: U32, m: U32, k: nat, n: nat)
    requires Ones(m, k) && k <= 32
    ensures Value(Right(And(x, m), n)) == Value(x) % Pow2(k) / Pow2(n)
  {
    hide Value, And, Ones, Right;
    ValueAnd(x, m, k);
    ValueRight(And(x, m), n);
  }

  lemma RightMasked(x: U32, n: nat, m: U32, k: nat)
    requires Ones(m, k) && k <= 32
    ensures Value(And(Right(x, n), m)) == Value(x) / Pow2(n) % Pow2(k)
  {
    hide Value, And, Ones, Right;
    ValueAnd(Right(x, n), m, k);
    ValueRight(x, n);
  }

  function Plus2(x: U32): U32 { x + 2 }

  function Plus3(x: U32): U32 { x + 3 }

  lemma ValuePlus3(x: U32)
    requires Value(x) < 65536
    ensures Value(Plus3(x)) == Value(x) + 3 && Value(Plus2(x)) == Value(x) + 2
  {
    hide Value, Next, Plus2, Plus3, AtMost, Ones, Pow2;
    MaskConstants();
    Powers();
    BelowOnes(x, 0xffff, 16);
    PlusIs(x);
    ValueNext(x);
    ValueNext(Next(x));
    ValueNext(Next(Next(x)));
  }

  lemma PlusIs(x: U32)
    requires AtMost(x, 0xffff)
    ensures Plus2(x) == Next(Next(x)) && Plus3(x) == Next(Next(Next(x)))
    ensures x != 0xffff_ffff && Next(x) != 0xffff_ffff && Next(Next(x)) != 0xffff_ffff
  {
  }

  lemma BelowOnes(x: U32, m: U32, k: nat)
    requires Ones(m, k) && k <= 32
    ensures AtMost(x, m) <==> Value(x) < Pow2(k)
  {
    hide Value, Ones;
    ValueOnes(m, k);
    ValueOrder(x, m);
  }

  lemma Powers()
    ensures Pow2(1) == 2 && Pow2(2) == 4 && Pow2(4) == 16 && Pow2(5) == 32 && Pow2(6) == 64 && Pow2(7) == 128
    ensures Pow2(8) == 256 && Pow2(10) == 1024 && Pow2(14) == 16384 && Pow2(15) == 32768 && Pow2(16) == 65536
    ensures Pow2(17) == 131072 && Pow2(31) == 0x8000_0000 && Pow2(32) == 0x1_0000_0000
  {
    assert Pow2(12) == 4096;
    assert Pow2(20) == 0x10_0000;
    assert Pow2(25) == 0x200_0000;
  }

  lemma BytePowers()
    ensures Pow2(12) == 4096 && Pow2(24) == 0x100_0000
  {
    Powers();
    assert Pow2(24) == 256 * Pow2(16);
  }

  function Minus2(x: U32): U32 { x - 2 }

  function Minus3(x: U32): U32 { x - 3 }

  lemma ValueMinus(l: U32)
    requires 3 <= Value(l) < 65536
    ensures Value(Minus3(l)) == Value(l) - 3 && Value(Minus2(l)) == Value(l) - 2
  {
    hide Value, AtMost, Minus2, Minus3, Plus2, Plus3, Ones, Pow2;
    MaskConstants();
    Powers();
    Numerals();
    ValueOrder(3, l);
    assert AtMost(3, l) by { AtMostIs(3, l); }
    BelowOnes(l, 0xffff, 16);
    MinusIs(l);
    BelowOnes(Minus3(l), 0xffff, 16);
    BelowOnes(Minus2(l), 0xffff, 16);
    ValuePlus3(Minus3(l));
    ValuePlus3(Minus2(l));
  }

  lemma MinusIs(l: U32)
    requires AtMost(3, l) && AtMost(l, 0xffff)
    ensures Plus3(Minus3(l)) == l && Plus2(Minus2(l)) == l
    ensures AtMost(Minus3(l), 0xffff) && AtMost(Minus2(l), 0xffff)
  {
  }

  lemma AtMostIs(a: U32, b: U32)
    ensures AtMost(a, b) <==> a <= b
  {
  }

  lemma AtMostValue(a: U32, b: U32)
    ensures AtMost(a, b) <==> Value(a) <= Value(b)
  {
    ValueOrder(a, b);
  }

  lemma AndWord(a: U32, m: U32)
    ensures And(a, m) == a & m
  {
  }

  lemma ValueSentinel()
    ensures Value(0x8000_0000) == 0x8000_0000
  {
    hide Value, Ones, Next, Pow2;
    MaskConstants();
    Powers();
    ValueOnes(0x7fff_ffff, 31);
    SentinelNext();
    ValueNext(0x7fff_ffff);
  }

  lemma SentinelNext()
    ensures Next(0x7fff_ffff) == 0x8000_0000
  {
  }
}

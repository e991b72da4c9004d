/** Parsing undoes printing, and what the parser accepts survives being printed and
    parsed again. */
module JsonRoundTrip {
  import opened Doubles
  import opened JsonGrammar

  // ----- strings

  lemma HexOfDigit(v: nat)
    requires v < 16
    ensures HexValue(HexDigit(v)) == Some(v) && HexDigit(v) != 0
  {
  }

  lemma HexRunOfHex4(c: Unit, rest: Text)
    ensures HexRun(Hex4(c) + rest, 4, 0) == Some(c % 65536)
  {
    var d1, d2, d3, d4 := c / 4096 % 16, c / 256 % 16, c / 16 % 16, c % 16;
    HexOfDigit(d1);
    HexOfDigit(d2);
    HexOfDigit(d3);
    HexOfDigit(d4);
    HexSum(c);
    var t := Hex4(c) + rest;
    HexFour(t, d1, d2, d3, d4);
  }

  lemma HexFour(t: Text, d1: nat, d2: nat, d3: nat, d4: nat)
    requires |t| >= 4 && HexValue(t[0]) == Some(d1) && HexValue(t[1]) == Some(d2)
    requires HexValue(t[2]) == Some(d3) && HexValue(t[3]) == Some(d4)
    ensures HexRun(t, 4, 0) == Some(16 * (16 * (16 * d1 + d2) + d3) + d4)
  {
    hide HexRun, HexValue;
    HexOne(t, 4, 0, d1);
    assert t[1..][0] == t[1] && t[1..][1..] == t[2..] && t[2..][1..] == t[3..];
    HexOne(t[1..], 3, d1, d2);
    HexOne(t[2..], 2, 16 * d1 + d2, d3);
    HexOne(t[3..], 1, 16 * (16 * d1 + d2) + d3, d4);
    HexNone(t[3..][1..], 16 * (16 * (16 * d1 + d2) + d3) + d4);
  }

  lemma HexOne(t: Text, n: nat, acc: nat, v: nat)
    requires 0 < n <= |t| && HexValue(t[0]) == Some(v)
    ensures HexRun(t, n, acc) == HexRun(t[1..], n - 1, 16 * acc + v)
  {
  }

  lemma HexNone(t: Text, acc: nat)
    ensures HexRun(t, 0, acc) == Some(acc)
  {
  }

  lemma HexSum(c: int)
    ensures 16 * (16 * (16 * (c / 4096 % 16) + c / 256 % 16) + c / 16 % 16) + c % 16 == c % 65536
  {
    var a := c / 16;
    var b := a / 16;
    assert c / 256 == b && c / 4096 == b / 16;
  }

  /** What a unit comes back as: below zero only the low sixteen bits are printed. */
  function Clean(s: Text): Text {
    if s == [] then [] else [if s[0] < 0 then s[0] % 65536 else s[0]] + Clean(s[1..])
  }

  predicate NonNegative(s: Text) { forall i :: 0 <= i < |s| ==> s[i] >= 0 }

  lemma {:induction false} CleanIs(s: Text)
    ensures Clean(s) == s <==> NonNegative(s)
    decreases |s|
  {
    if s != [] {
      CleanIs(s[1..]);
      assert s == [s[0]] + s[1..];
      assert Clean(s) == s ==> Clean(s)[1..] == s[1..];
      if NonNegative(s[1..]) && s[0] >= 0 { TailNonNegative(s); }
    }
  }

  lemma TailNonNegative(s: Text)
    requires s != []
    ensures NonNegative(s) <==> s[0] >= 0 && NonNegative(s[1..])
  {
    if s[0] >= 0 && NonNegative(s[1..]) {
      forall i | 0 <= i < |s| ensures s[i] >= 0 { if i > 0 { assert s[i] == s[1..][i - 1]; } }
    }
  }

  lemma UnescapeHex(c: Unit, rest: Text)
    ensures Unescape([117] + Hex4(c) + rest) == Some((c % 65536, rest))
  {
    var d := [117] + Hex4(c) + rest;
    HexRunOfHex4(c, rest);
    assert d[1..] == Hex4(c) + rest && d[5..] == rest;
    assert HasUnits(d, 5);
  }

  lemma ExtractPlain(c: Unit, rest: Text)
    requires c >= 32 && c != QUOTE && c != BACKSLASH
    ensures Extract([c] + rest) == Prepend([c], Extract(rest))
  {
    assert ([c] + rest)[1..] == rest;
  }

  lemma ExtractEscape(e: Text, rest: Text, c: Unit)
    requires Unescape(e + rest) == Some((c, rest))
    ensures Extract([BACKSLASH] + e + rest) == Prepend([c], Extract(rest))
  {
    hide Unescape;
    assert ([BACKSLASH] + e + rest)[1..] == e + rest;
  }

  lemma UnescapeOne(e: Unit, c: Unit, rest: Text)
    requires ((e == QUOTE || e == BACKSLASH || e == SLASH) && c == e) || (e == 98 && c == 8) || (e == 102 && c == 12)
             || (e == 110 && c == 10) || (e == 114 && c == 13) || (e == 116 && c == 9)
    ensures Unescape([e] + rest) == Some((c, rest))
  {
    assert ([e] + rest)[1..] == rest;
  }

  lemma ExtractUnit(c: Unit, rest: Text)
    ensures Extract(EscapeUnit(c) + rest) == Prepend([if c < 0 then c % 65536 else c], Extract(rest))
  {
    hide Extract, EscapeUnit;
    if IsShort(c) {
      ExtractShort(c, rest);
    } else if c < 32 {
      ExtractHex(c, rest);
    } else {
      PlainUnit(c);
      ExtractPlain(c, rest);
    }
  }

  /** Units with an escape of two characters. */
  predicate IsShort(c: Unit) {
    c == QUOTE || c == BACKSLASH || c == SLASH || c == 8 || c == 12 || c == 10 || c == 13 || c == 9
  }

  lemma ExtractShort(c: Unit, rest: Text)
    requires IsShort(c)
    ensures Extract(EscapeUnit(c) + rest) == Prepend([c], Extract(rest))
  {
    hide Extract, Unescape, Hex4;
    var e := EscapeUnit(c)[1];
    UnescapeOne(e, c, rest);
    ExtractEscape([e], rest, c);
    assert EscapeUnit(c) == [BACKSLASH] + [e];
  }

  lemma ExtractHex(c: Unit, rest: Text)
    requires !IsShort(c) && c < 32
    ensures Extract(EscapeUnit(c) + rest) == Prepend([c % 65536], Extract(rest))
    ensures c >= 0 ==> c % 65536 == c
  {
    hide Extract, Unescape, Hex4;
    UnescapeHex(c, rest);
    ExtractEscape([117] + Hex4(c), rest, c % 65536);
    assert EscapeUnit(c) == [BACKSLASH] + ([117] + Hex4(c));
  }

  lemma PlainUnit(c: Unit)
    requires !IsShort(c) && c >= 32
    ensures EscapeUnit(c) == [c] && c != QUOTE && c != BACKSLASH
  {
  }

  /** A printed string, read back. */
  lemma {:induction false} ExtractEscaped(s: Text, rest: Text)
    ensures Extract(Escape(s) + [QUOTE] + rest) == Some((Clean(s), rest))
    decreases |s|
  {
    if s == [] {
      assert Escape(s) + [QUOTE] + rest == [QUOTE] + rest;
    } else {
      assert Escape(s) + [QUOTE] + rest == EscapeUnit(s[0]) + (Escape(s[1..]) + [QUOTE] + rest);
      hide EscapeUnit, Extract;
      ExtractUnit(s[0], Escape(s[1..]) + [QUOTE] + rest);
      ExtractEscaped(s[1..], rest);
    }
  }

  /** A string comes back as it was exactly when none of its units is negative: a
      quote, a backslash, a control character or a zero is no obstacle. */
  lemma StringRoundTrip(s: Text, rest: Text)
    ensures Extract(Escape(s) + [QUOTE] + rest) == Some((s, rest)) <==> NonNegative(s)
  {
    ExtractEscaped(s, rest);
    CleanIs(s);
  }

  lemma ParseQuoted(s: Text, rest: Text)
    requires NonNegative(s)
    ensures var d := Quoted(s) + rest; d != [] && Head(d) == QUOTE && Extract(d[1..]) == Some((s, rest))
  {
    StringRoundTrip(s, rest);
    assert (Quoted(s) + rest)[1..] == Escape(s) + [QUOTE] + rest;
  }

  // ----- numbers

  function Fold(acc: nat, ds: Text): nat
    requires AllDigits(ds)
    decreases |ds|
  {
    if ds == [] then acc else Fold(10 * acc + (ds[0] - 48), ds[1..])
  }

  lemma {:induction false} FoldAppend(acc: nat, ds: Text, c: Unit)
    requires AllDigits(ds) && IsDigit(c)
    ensures AllDigits(ds + [c]) && Fold(acc, ds + [c]) == 10 * Fold(acc, ds) + (c - 48)
    decreases |ds|
  {
    if ds == [] {
      assert ds + [c] == [c];
    } else {
      assert (ds + [c])[1..] == ds[1..] + [c];
      FoldAppend(10 * acc + (ds[0] - 48), ds[1..], c);
    }
  }

  lemma {:induction false} FoldDigits(n: nat)
    ensures Fold(0, Digits(n)) == n
    decreases n
  {
    if n >= 10 {
      FoldDigits(n / 10);
      FoldAppend(0, Digits(n / 10), 48 + n % 10);
    }
  }

  /** What ParseInt makes of digits. */
  function Summed(acc: nat, ds: Text): nat
    requires AllDigits(ds)
    decreases |ds|
  {
    if ds == [] then acc else Summed(Accumulate(acc, ds[0] - 48), ds[1..])
  }

  lemma {:induction false} IntFromDigits(acc: nat, ds: Text, rest: Text)
    requires AllDigits(ds) && !IsDigit(Head(rest))
    ensures IntFrom(acc, ds + rest) == (Summed(acc, ds), rest)
    decreases |ds|
  {
    hide Accumulate;
    if ds == [] {
      assert ds + rest == rest;
    } else {
      assert (ds + rest)[1..] == ds[1..] + rest;
      IntFromDigits(Accumulate(acc, ds[0] - 48), ds[1..], rest);
    }
  }

  /** The sum is the integer spelt up to 2^53, 2^53 for the next one, and more above. */
  lemma {:induction false} SummedHolds(v: nat, x: nat, ds: Text)
    requires AllDigits(ds) && Holds(v, x)
    ensures Holds(Fold(v, ds), Summed(x, ds))
    decreases |ds|
  {
    hide Accumulate, Holds;
    if ds != [] {
      AccumulateHolds(v, x, ds[0] - 48);
      SummedHolds(10 * v + (ds[0] - 48), Accumulate(x, ds[0] - 48), ds[1..]);
    }
  }

  lemma SummedDigits(n: nat)
    ensures Holds(n, Summed(0, Digits(n)))
  {
    hide Summed, Digits, Fold;
    FoldDigits(n);
    SummedHolds(0, 0, Digits(n));
  }

  /** What may follow a printed number without being taken for a part of it. */
  predicate Stops(rest: Text) {
    var c := Head(rest);
    !IsDigit(c) && c != DOT && !IsExponent(c)
  }

  lemma WholeOfDigits(n: nat, rest: Text)
    requires !IsDigit(Head(rest))
    ensures WholePart(Digits(n) + rest) == Done(Summed(0, Digits(n)) as real, rest)
  {
    var d := Digits(n) + rest;
    if n == 0 {
      assert d[1..] == rest;
      SummedDigits(0);
    } else {
      hide Summed, IntFrom, Digits;
      IntFromDigits(0, Digits(n), rest);
    }
  }

  /** A printed integer is read as what its digits add up to in a double: itself, as
      long as it is at most 2^53. */
  lemma NumberRoundTrip(n: int, rest: Text)
    requires Stops(rest)
    ensures var m: nat := if n < 0 then -n else n;
            var x := Summed(0, Digits(m));
            && Number(IntText(n) + rest) == Done(if n < 0 then x as real * -1.0 else x as real, rest)
            && (m <= LIMIT ==> Number(IntText(n) + rest) == Done(n as real, rest))
  {
    var d := IntText(n) + rest;
    hide Digits, WholePart, Summed;
    if n < 0 {
      assert d[1..] == Digits(-n) + rest;
      WholeOfDigits(-n, rest);
      SummedDigits(-n);
    } else {
      assert IsDigit(d[0]);
      WholeOfDigits(n, rest);
      SummedDigits(n);
    }
  }

  /** The value of the digits behind a decimal point. */
  function Fraction(ds: Text): real
    requires AllDigits(ds)
  {
    if ds == [] then 0.0 else ((ds[0] - 48) as real + Fraction(ds[1..])) / 10.0
  }

  lemma DecimalStep(acc: real, factor: real, d: Text)
    requires IsDigit(Head(d))
    ensures DecimalFrom(acc, factor, d) == DecimalFrom(acc + Place(d[0] - 48, factor), Tenth(factor), d[1..])
  {
    hide Place, Tenth;
  }

  lemma DecimalStops(acc: real, factor: real, d: Text)
    requires !IsDigit(Head(d))
    ensures DecimalFrom(acc, factor, d) == (acc, d)
  {
  }

  function Weighted(acc: real, factor: real, fraction: real): real {
    acc + 10.0 * factor * fraction
  }

  lemma PlaceStep(acc: real, digit: nat, factor: real, tail: real, whole: real)
    requires whole == (digit as real + tail) / 10.0
    ensures Weighted(acc + Place(digit, factor), Tenth(factor), tail) == Weighted(acc, factor, whole)
  {
    assert 10.0 * factor * whole == factor * (10.0 * whole) == factor * (digit as real + tail);
  }

  lemma {:induction false} DecimalIsFraction(acc: real, factor: real, ds: Text, rest: Text)
    requires AllDigits(ds) && !IsDigit(Head(rest))
    ensures DecimalFrom(acc, factor, ds + rest) == (Weighted(acc, factor, Fraction(ds)), rest)
    decreases |ds|
  {
    if ds == [] { assert Weighted(acc, factor, 0.0) == acc; }
    hide DecimalFrom, Place, Tenth, Weighted;
    if ds == [] {
      assert ds + rest == rest;
      DecimalStops(acc, factor, rest);
    } else {
      assert (ds + rest)[1..] == ds[1..] + rest;
      DecimalStep(acc, factor, ds + rest);
      DecimalIsFraction(acc + Place(ds[0] - 48, factor), Tenth(factor), ds[1..], rest);
      var digit: nat := ds[0] - 48;
      PlaceStep(acc, digit, factor, Fraction(ds[1..]), Fraction(ds));
    }
  }

  lemma {:induction false} ScaleFraction(a: nat, ds: Text)
    requires AllDigits(ds)
    ensures Scale(a as real + Fraction(ds), |ds|, false) == Fold(a, ds) as real
    decreases |ds|
  {
    if ds != [] {
      ScaleFraction(10 * a + (ds[0] - 48), ds[1..]);
      assert (a as real + Fraction(ds)) * 10.0 == (10 * a + (ds[0] - 48)) as real + Fraction(ds[1..]);
    }
  }

  /** The digits behind the decimal point, times ten to their number, are the integer
      these digits spell. */
  lemma DecimalMeaning(ds: Text, rest: Text)
    requires AllDigits(ds) && !IsDigit(Head(rest))
    ensures var r := DecimalFrom(0.0, 0.1, ds + rest);
            Scale(r.0, |ds|, false) == Fold(0, ds) as real && r.1 == rest
  {
    hide DecimalFrom, Fraction, Scale, Fold;
    DecimalIsFraction(0.0, 0.1, ds, rest);
    ScaleFraction(0, ds);
  }

  // ----- objects

  predicate Sorted(ms: seq<Member>) {
    forall i, j :: 0 <= i < j < |ms| ==> Less(ms[i].name, ms[j].name)
  }

  /** Names are ordered as in a dictionary: by the first unit in which they differ, or by
      length if one begins with the other. */
  lemma {:induction false} LessIs(a: Text, b: Text)
    ensures Less(a, b) <==> exists k: nat :: DiffersAt(a, b, k)
    decreases |a|
  {
    if a != [] && b != [] && a[0] == b[0] {
      LessIs(a[1..], b[1..]);
      if k: nat :| DiffersAt(a[1..], b[1..], k) {
        assert a[..k + 1] == [a[0]] + a[1..][..k] && b[..k + 1] == [b[0]] + b[1..][..k];
        assert DiffersAt(a, b, k + 1);
      }
      if k: nat :| DiffersAt(a, b, k) {
        assert k > 0;
        assert a[..k] == [a[0]] + a[1..][..k - 1] && b[..k] == [b[0]] + b[1..][..k - 1];
        assert a[1..][..k - 1] == a[..k][1..] && b[1..][..k - 1] == b[..k][1..];
        assert DiffersAt(a[1..], b[1..], k - 1);
      }
    } else if Less(a, b) {
      assert DiffersAt(a, b, 0);
    } else if k: nat :| DiffersAt(a, b, k) {
      if k > 0 { SameFirst(a, b, k); }
    }
  }

  lemma SameFirst(a: Text, b: Text, k: nat)
    requires DiffersAt(a, b, k) && k > 0
    ensures a != [] && b != [] && a[0] == b[0]
  {
    assert a[..k][0] == b[..k][0];
  }

  predicate DiffersAt(a: Text, b: Text, k: nat) {
    k <= |a| && k < |b| && a[..k] == b[..k] && (k == |a| || a[k] < b[k])
  }

  lemma {:induction false} LessTransitive(a: Text, b: Text, c: Text)
    requires Less(a, b) && Less(b, c)
    ensures Less(a, c)
    decreases |a|
  {
    if a != [] && a[0] == b[0] && b[0] == c[0] { LessTransitive(a[1..], b[1..], c[1..]); }
  }

  lemma {:induction false} LessTotal(a: Text, b: Text)
    ensures a == b || Less(a, b) || Less(b, a)
    decreases |a|
  {
    if a != [] && b != [] && a[0] == b[0] {
      LessTotal(a[1..], b[1..]);
      if a[1..] == b[1..] { assert a == [a[0]] + a[1..] == [b[0]] + b[1..] == b; }
    }
  }

  lemma {:induction false} LessIrreflexive(a: Text)
    ensures !Less(a, a)
    decreases |a|
  {
    if a != [] { LessIrreflexive(a[1..]); }
  }

  function Find(ms: seq<Member>, name: Text): Option<Value> {
    if ms == [] then None
    else if ms[0].name == name then Some(ms[0].value)
    else Find(ms[1..], name)
  }

  /** Put is the update of a map, kept in order. */
  lemma {:induction false} PutIsUpdate(ms: seq<Member>, name: Text, value: Value, q: Text)
    ensures Find(Put(ms, name, value), q) == (if q == name then Some(value) else Find(ms, q))
    decreases |ms|
  {
    var r := Put(ms, name, value);
    if ms == [] || Less(name, ms[0].name) {
      assert r[1..] == ms;
      if q == name && ms != [] { LessIrreflexive(name); }
    } else if ms[0].name == name {
      assert r[1..] == ms[1..];
    } else {
      assert r[1..] == Put(ms[1..], name, value);
      PutIsUpdate(ms[1..], name, value, q);
    }
  }

  lemma {:induction false} PutNames(ms: seq<Member>, name: Text, value: Value)
    ensures forall m :: m in Put(ms, name, value) ==> m == Member(name, value) || m in ms
    decreases |ms|
  {
    if ms != [] && !Less(name, ms[0].name) && ms[0].name != name { PutNames(ms[1..], name, value); }
  }

  lemma TailSorted(ms: seq<Member>)
    requires Sorted(ms) && ms != []
    ensures Sorted(ms[1..]) && forall m :: m in ms[1..] ==> Less(ms[0].name, m.name)
  {
  }

  lemma ConsSorted(m: Member, ms: seq<Member>)
    requires Sorted(ms) && forall x :: x in ms ==> Less(m.name, x.name)
    ensures Sorted([m] + ms)
  {
    hide Less;
  }

  lemma {:induction false} PutSorted(ms: seq<Member>, name: Text, value: Value)
    requires Sorted(ms)
    ensures Sorted(Put(ms, name, value))
    decreases |ms|
  {
    if ms != [] {
      hide Less, Sorted;
      TailSorted(ms);
      if Less(name, ms[0].name) {
        forall x | x in ms ensures Less(name, x.name) {
          if x != ms[0] {
            assert x in ms[1..];
            LessTransitive(name, ms[0].name, x.name);
          }
        }
        ConsSorted(Member(name, value), ms);
      } else if ms[0].name == name {
        ConsSorted(Member(name, value), ms[1..]);
      } else {
        LessTotal(name, ms[0].name);
        PutSorted(ms[1..], name, value);
        PutNames(ms[1..], name, value);
        ConsSorted(ms[0], Put(ms[1..], name, value));
      }
    }
  }

  /** A name beyond all others goes to the end. */
  lemma {:induction false} PutLast(ms: seq<Member>, name: Text, value: Value)
    requires forall m :: m in ms ==> Less(m.name, name)
    ensures Put(ms, name, value) == ms + [Member(name, value)]
    decreases |ms|
  {
    if ms != [] {
      LessIrreflexive(name);
      if Less(name, ms[0].name) { LessTransitive(ms[0].name, name, ms[0].name); LessIrreflexive(ms[0].name); }
      PutLast(ms[1..], name, value);
      assert ms == [ms[0]] + ms[1..];
    }
  }

  // ----- values

  /** Values as the library builds them, with numbers that print as integers. */
  predicate Printable(v: Value)
    decreases v, 0
  {
    match v
    case Num(n) => IsSmallInt(n)
    case Str(s) => NonNegative(s)
    case Arr(items) => PrintableItems(items)
    case Obj(ms) => Sorted(ms) && PrintableMembers(ms)
    case _ => true
  }

  predicate PrintableItems(items: seq<Value>)
    decreases items, 0
  {
    items == [] || (Printable(items[0]) && PrintableItems(items[1..]))
  }

  predicate PrintableMembers(ms: seq<Member>)
    decreases ms, 0
  {
    ms == [] || (Printable(ms[0].value) && NonNegative(ms[0].name) && PrintableMembers(ms[1..]))
  }

  /** The first character of a printed value: no white space, no closing bracket. */
  predicate Opens(c: Unit) {
    c != 0 && !IsSpace(c) && c != CLOSE_BRACKET && c != CLOSE_BRACE
  }

  lemma PrintOpens(v: Value, fmt: real -> Text)
    requires Printable(v)
    ensures Print(v, fmt) != [] && Opens(Print(v, fmt)[0])
  {
    match v
    case Num(n) => if n.Floor >= 0 { assert IsDigit(Digits(n.Floor)[0]); }
    case _ =>
  }

  lemma SkipOpens(d: Text)
    requires d != [] && Opens(d[0])
    ensures Skip(d) == d && Head(d) != 0
  {
  }

  lemma SkipPunctuation(c: Unit, d: Text)
    requires c == COMMA || c == COLON || c == CLOSE_BRACKET || c == CLOSE_BRACE
    ensures Skip([c] + d) == [c] + d && Head([c] + d) == c && ([c] + d)[1..] == d && Stops([c] + d)
  {
  }

  /** A text that opens with one of these is no literal word. */
  lemma NoWord(d: Text)
    requires var c := Head(d); c == QUOTE || c == MINUS || IsDigit(c) || c == OPEN_BRACE || c == OPEN_BRACKET
    ensures !Starts(d, TRUE) && !Starts(d, FALSE) && !Starts(d, NULL)
  {
    if d != [] { assert TRUE[0] == 116 && FALSE[0] == 102 && NULL[0] == 110; }
  }

  lemma ParseWord(v: Value, fmt: real -> Text, rest: Text)
    requires v.Null? || v.Bool?
    ensures ParseValue(Print(v, fmt) + rest) == Done(v, rest)
  {
    var d := Print(v, fmt) + rest;
    if v == Bool(true) {
      assert d[4..] == rest && Starts(d, TRUE);
    } else if v == Bool(false) {
      assert d[0] == 102 && TRUE[0] == 116;
      assert d[5..] == rest && Starts(d, FALSE);
    } else {
      assert d[0] == 110 && TRUE[0] == 116 && FALSE[0] == 102;
      assert d[4..] == rest && Starts(d, NULL);
    }
  }

  lemma ParseNumberText(n: int, rest: Text)
    requires Stops(rest) && n <= LIMIT && -n <= LIMIT
    ensures ParseValue(IntText(n) + rest) == Done(Num(n as real), rest)
  {
    var d := IntText(n) + rest;
    NumberRoundTrip(n, rest);
    if n >= 0 { assert IsDigit(Digits(n)[0]); }
    hide Number, Digits, Starts;
    NoWord(d);
  }

  /** Parsing a printed value gives the value back and stops right behind it. */
  lemma {:induction false} ParsePrinted(v: Value, fmt: real -> Text, rest: Text)
    requires Printable(v) && (v.Num? ==> Stops(rest))
    ensures ParseValue(Print(v, fmt) + rest) == Done(v, rest)
    decreases v, 1
  {
    var d := Print(v, fmt) + rest;
    match v
    case Null => ParseWord(v, fmt, rest);
    case Bool(_) => ParseWord(v, fmt, rest);
    case Num(n) => ParseNumberText(n.Floor, rest);
    case Str(s) => ParseQuoted(s, rest);
    case Arr(items) =>
      ArrayPrinted(v, fmt, rest);
    case Obj(ms) =>
      ObjectPrinted(v, fmt, rest);
  }

  lemma ParseBrace(d: Text)
    requires d != []
    ensures d[0] == OPEN_BRACE ==> ParseValue(d) == ParseMembers(d[1..], [])
    ensures d[0] == OPEN_BRACKET ==> ParseValue(d) == ParseItems(d[1..], [])
  {
    if d[0] == OPEN_BRACE || d[0] == OPEN_BRACKET { NoWord(d); }
    hide Starts, ParseMembers, ParseItems;
  }

  lemma {:induction false} ArrayPrinted(v: Value, fmt: real -> Text, rest: Text)
    requires v.Arr? && Printable(v)
    ensures ParseValue(Print(v, fmt) + rest) == Done(v, rest)
    decreases v, 0
  {
    var d := [OPEN_BRACKET] + (PrintItems(v.items, fmt) + ([CLOSE_BRACKET] + rest));
    assert Print(v, fmt) + rest == d;
    if v.items == [] {
      SkipPunctuation(CLOSE_BRACKET, rest);
      assert d[1..] == [CLOSE_BRACKET] + rest;
    } else {
      assert [] + v.items == v.items;
      ItemsPrinted(v.items, fmt, rest, []);
    }
    hide Print, PrintItems, Starts, Skip, PrintableItems;
    ParseBrace(d);
  }

  lemma {:induction false} ObjectPrinted(v: Value, fmt: real -> Text, rest: Text)
    requires v.Obj? && Printable(v)
    ensures ParseValue(Print(v, fmt) + rest) == Done(v, rest)
    decreases v, 0
  {
    var d := [OPEN_BRACE] + (PrintMembers(v.members, fmt) + ([CLOSE_BRACE] + rest));
    assert Print(v, fmt) + rest == d;
    if v.members == [] {
      SkipPunctuation(CLOSE_BRACE, rest);
      assert d[1..] == [CLOSE_BRACE] + rest;
    } else {
      assert [] + v.members == v.members;
      MembersPrinted(v.members, fmt, rest, []);
    }
    hide Print, PrintMembers, Starts, Skip, Sorted, PrintableMembers;
    ParseBrace(d);
  }

  /** What follows the first item. */
  function AfterItem(items: seq<Value>, fmt: real -> Text, rest: Text): Text
    requires items != []
  {
    if |items| == 1 then [CLOSE_BRACKET] + rest
    else [COMMA] + (PrintItems(items[1..], fmt) + ([CLOSE_BRACKET] + rest))
  }

  lemma Assoc(a: Text, b: Text, c: Text)
    ensures a + b + c == a + (b + c)
  {
  }

  lemma FirstItem(items: seq<Value>, fmt: real -> Text, rest: Text)
    requires items != [] && Printable(items[0])
    ensures PrintItems(items, fmt) + ([CLOSE_BRACKET] + rest) == Print(items[0], fmt) + AfterItem(items, fmt, rest)
    ensures Print(items[0], fmt) + AfterItem(items, fmt, rest) != []
            && Opens((Print(items[0], fmt) + AfterItem(items, fmt, rest))[0])
  {
    PrintOpens(items[0], fmt);
    hide Print, Printable, Opens;
    var first, close := Print(items[0], fmt), [CLOSE_BRACKET] + rest;
    if |items| > 1 {
      var more := PrintItems(items[1..], fmt);
      assert PrintItems(items, fmt) == first + ([COMMA] + more);
      hide PrintItems;
      Assoc(first, [COMMA] + more, close);
      Assoc([COMMA], more, close);
    } else {
      assert PrintItems(items, fmt) == first;
    }
  }

  lemma AfterItemIs(items: seq<Value>, fmt: real -> Text, rest: Text)
    requires items != []
    ensures var more := AfterItem(items, fmt, rest);
            && Skip(more) == more != [] && Stops(more) && Head(more) == (if |items| == 1 then CLOSE_BRACKET else COMMA)
            && more[1..] == (if |items| == 1 then rest else PrintItems(items[1..], fmt) + ([CLOSE_BRACKET] + rest))
  {
    if |items| == 1 {
      SkipPunctuation(CLOSE_BRACKET, rest);
    } else {
      hide PrintItems;
      SkipPunctuation(COMMA, PrintItems(items[1..], fmt) + ([CLOSE_BRACKET] + rest));
    }
  }

  lemma {:induction false} ItemsPrinted(items: seq<Value>, fmt: real -> Text, rest: Text, acc: seq<Value>)
    requires items != [] && PrintableItems(items)
    ensures ParseItems(PrintItems(items, fmt) + ([CLOSE_BRACKET] + rest), acc) == Done(Arr(acc + items), rest)
    decreases items, 2
  {
    hide Print, PrintItems, ParseItems, ParseValue, Skip, Opens, AfterItem, Stops;
    FirstItem(items, fmt, rest);
    AfterItemIs(items, fmt, rest);
    var more := AfterItem(items, fmt, rest);
    ParsePrinted(items[0], fmt, more);
    ItemStep(Print(items[0], fmt) + more, acc, items[0], more);
    if |items| > 1 {
      ItemsPrinted(items[1..], fmt, rest, acc + [items[0]]);
      assert acc + [items[0]] + items[1..] == acc + items;
    } else {
      assert acc + [items[0]] == acc + items;
    }
  }

  /** One round of the array loop. */
  lemma ItemStep(d: Text, acc: seq<Value>, v: Value, more: Text)
    requires d != [] && Opens(d[0]) && ParseValue(d) == Done(v, more)
    requires Skip(more) == more && (Head(more) == CLOSE_BRACKET || Head(more) == COMMA)
    ensures ParseItems(d, acc) ==
            if Head(more) == COMMA then ParseItems(more[1..], acc + [v]) else Done(Arr(acc + [v]), more[1..])
  {
    SkipOpens(d);
  }

  lemma NamePrinted(name: Text, rest: Text)
    requires NonNegative(name)
    ensures var d := Quoted(name) + ([COLON] + rest);
            d != [] && Opens(d[0]) && ParseName(d) == Done(name, rest)
  {
    ParseQuoted(name, [COLON] + rest);
    SkipPunctuation(COLON, rest);
  }

  /** What follows the first member. */
  function AfterMember(ms: seq<Member>, fmt: real -> Text, rest: Text): Text
    requires ms != []
  {
    if |ms| == 1 then [CLOSE_BRACE] + rest
    else [COMMA] + (PrintMembers(ms[1..], fmt) + ([CLOSE_BRACE] + rest))
  }

  lemma FirstMember(ms: seq<Member>, fmt: real -> Text, rest: Text)
    requires ms != []
    ensures PrintMembers(ms, fmt) + ([CLOSE_BRACE] + rest)
            == Quoted(ms[0].name) + ([COLON] + (Print(ms[0].value, fmt) + AfterMember(ms, fmt, rest)))
  {
    hide Print, Quoted;
    var name, first, close := Quoted(ms[0].name), Print(ms[0].value, fmt), [CLOSE_BRACE] + rest;
    if |ms| > 1 {
      var more := PrintMembers(ms[1..], fmt);
      assert PrintMembers(ms, fmt) == name + [COLON] + first + ([COMMA] + more);
      hide PrintMembers;
      Assoc(name + [COLON] + first, [COMMA] + more, close);
      Assoc([COMMA], more, close);
    } else {
      assert PrintMembers(ms, fmt) == name + [COLON] + first;
    }
    hide PrintMembers;
    var after := AfterMember(ms, fmt, rest);
    Assoc(name + [COLON], first, after);
    Assoc(name, [COLON], first + after);
  }

  lemma AfterMemberIs(ms: seq<Member>, fmt: real -> Text, rest: Text)
    requires ms != []
    ensures var more := AfterMember(ms, fmt, rest);
            && Skip(more) == more != [] && Stops(more) && Head(more) == (if |ms| == 1 then CLOSE_BRACE else COMMA)
            && more[1..] == (if |ms| == 1 then rest else PrintMembers(ms[1..], fmt) + ([CLOSE_BRACE] + rest))
  {
    if |ms| == 1 {
      SkipPunctuation(CLOSE_BRACE, rest);
    } else {
      hide PrintMembers;
      SkipPunctuation(COMMA, PrintMembers(ms[1..], fmt) + ([CLOSE_BRACE] + rest));
    }
  }

  lemma ValueOpens(v: Value, fmt: real -> Text, more: Text)
    requires Printable(v)
    ensures Skip(Print(v, fmt) + more) == Print(v, fmt) + more
  {
    PrintOpens(v, fmt);
    hide Print, Printable;
    SkipOpens(Print(v, fmt) + more);
  }

  lemma {:induction false} FirstRound(v: Value, fmt: real -> Text, name: Text, acc: seq<Member>, more: Text)
    requires Printable(v) && NonNegative(name) && Stops(more)
    requires Skip(more) == more && (Head(more) == CLOSE_BRACE || Head(more) == COMMA)
    ensures ParseMembers(Quoted(name) + ([COLON] + (Print(v, fmt) + more)), acc) ==
            if Head(more) == COMMA then ParseMembers(more[1..], Put(acc, name, v))
            else Done(Obj(Put(acc, name, v)), more[1..])
    decreases v, 2
  {
    hide Print, ParseMembers, ParseValue, ParseName, Skip, Opens, Stops, Put, Quoted, Printable, NonNegative;
    NamePrinted(name, Print(v, fmt) + more);
    ValueOpens(v, fmt, more);
    ParsePrinted(v, fmt, more);
    MemberStep(Quoted(name) + ([COLON] + (Print(v, fmt) + more)), acc, name, v, Print(v, fmt) + more, more);
  }

  lemma {:induction false} MembersPrinted(ms: seq<Member>, fmt: real -> Text, rest: Text, acc: seq<Member>)
    requires ms != [] && PrintableMembers(ms) && Sorted(acc + ms)
    ensures ParseMembers(PrintMembers(ms, fmt) + ([CLOSE_BRACE] + rest), acc) == Done(Obj(acc + ms), rest)
    decreases ms, 2
  {
    hide Print, PrintMembers, ParseMembers, ParseValue, ParseName, Skip, Opens, AfterMember, Stops, Sorted, Put,
         Quoted, Less, Printable;
    var name, v := ms[0].name, ms[0].value;
    var more := AfterMember(ms, fmt, rest);
    FirstMember(ms, fmt, rest);
    AfterMemberIs(ms, fmt, rest);
    FirstRound(v, fmt, name, acc, more);
    LastOfSorted(acc, ms);
    PutLast(acc, name, v);
    assert [Member(name, v)] == [ms[0]];
    if |ms| > 1 {
      assert acc + [ms[0]] + ms[1..] == acc + ms;
      MembersPrinted(ms[1..], fmt, rest, acc + [ms[0]]);
    } else {
      assert acc + [ms[0]] == acc + ms;
    }
  }

  /** One round of the object loop. */
  lemma MemberStep(d: Text, acc: seq<Member>, name: Text, v: Value, d2: Text, more: Text)
    requires d != [] && Opens(d[0]) && ParseName(d) == Done(name, d2)
    requires Skip(d2) == d2 && ParseValue(d2) == Done(v, more)
    requires Skip(more) == more && (Head(more) == CLOSE_BRACE || Head(more) == COMMA)
    ensures ParseMembers(d, acc) ==
            if Head(more) == COMMA then ParseMembers(more[1..], Put(acc, name, v))
            else Done(Obj(Put(acc, name, v)), more[1..])
  {
    SkipOpens(d);
    hide ParseName, ParseValue, Put;
  }

  lemma LastOfSorted(acc: seq<Member>, ms: seq<Member>)
    requires ms != [] && Sorted(acc + ms)
    ensures forall m :: m in acc ==> Less(m.name, ms[0].name)
  {
    forall m | m in acc ensures Less(m.name, ms[0].name) {
      var i :| 0 <= i < |acc| && acc[i] == m;
      assert (acc + ms)[i] == m && (acc + ms)[|acc|] == ms[0];
    }
  }

  /** Parse(Stringify(v)) == v. */
  lemma RoundTrip(v: Value, fmt: real -> Text)
    requires Printable(v)
    ensures ParseText(Print(v, fmt)) == Done(v, [])
  {
    PrintOpens(v, fmt);
    SkipOpens(Print(v, fmt));
    ParsePrinted(v, fmt, []);
    hide Print, ParseValue;
    assert Print(v, fmt) + [] == Print(v, fmt);
  }
}

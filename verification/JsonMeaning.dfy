/** What a text of the grammar means, by RFC 8259, and that the parser reads every such text
    as what it means. */
module JsonMeaning {
  import opened Doubles
  import opened JsonGrammar
  import opened JsonRoundTrip
  import opened JsonScan
  import opened JsonSyntax

  // ----- characters

  /** The sixteen hexadecimal digits, as they may be written. */
  const LOWER_HEX: Text := [48, 49, 50, 51, 52, 53, 54, 55, 56, 57, 97, 98, 99, 100, 101, 102]
  const UPPER_HEX: Text := [48, 49, 50, 51, 52, 53, 54, 55, 56, 57, 65, 66, 67, 68, 69, 70]

  /** A unit is read as a digit's value exactly if it is that digit, small or capital. */
  lemma HexDigitsRead(c: Unit, v: nat)
    ensures HexValue(c) == Some(v) <==> v < 16 && (LOWER_HEX[v] == c || UPPER_HEX[v] == c)
  {
  }

  /** What a short escape stands for. */
  function ShortMeans(c: Unit): Unit {
    if c == 98 then 8 else if c == 102 then 12 else if c == 110 then 10 else if c == 114 then 13
    else if c == 116 then 9 else c
  }

  function Nibble(c: Unit): nat { if HexValue(c).Some? then HexValue(c).value else 0 }

  function PieceMeans(p: Piece): Unit
    requires PieceOk(p)
  {
    match p
    case Plain(c) => c
    case Short(c) => ShortMeans(c)
    case Hex(digits) =>
      4096 * Nibble(digits[0]) + 256 * Nibble(digits[1]) + 16 * Nibble(digits[2]) + Nibble(digits[3])
  }

  function PiecesMean(ps: seq<Piece>): Text
    requires PiecesOk(ps)
  {
    if ps == [] then [] else [PieceMeans(ps[0])] + PiecesMean(ps[1..])
  }

  lemma HexRunOfFour(digits: Text, rest: Text)
    requires PieceOk(Hex(digits))
    ensures HexRun(digits + rest, 4, 0) == Some(PieceMeans(Hex(digits)))
  {
    hide HexValue;
    var d := digits + rest;
    var a, b, c, e := Nibble(d[0]), Nibble(d[1]), Nibble(d[2]), Nibble(d[3]);
    HexRunStep(d, 4, 0);
    HexRunStep(d[1..], 3, a);
    HexRunStep(d[2..], 2, 16 * a + b);
    HexRunStep(d[3..], 1, 16 * (16 * a + b) + c);
    assert d[1..][1..] == d[2..] && d[2..][1..] == d[3..];
    hide HexRun;
    HexRunEnd(d[3..][1..], 16 * (16 * (16 * a + b) + c) + e);
  }

  lemma HexRunStep(d: Text, n: nat, acc: nat)
    requires 0 < n <= |d| && HexValue(d[0]).Some?
    ensures HexRun(d, n, acc) == HexRun(d[1..], n - 1, 16 * acc + Nibble(d[0]))
  {
    hide HexValue;
  }

  lemma HexRunEnd(d: Text, acc: nat)
    ensures HexRun(d, 0, acc) == Some(acc)
  {
  }

  lemma PieceReadAs(p: Piece, rest: Text)
    requires PieceOk(p) && Extract(rest).Some?
    ensures Extract(PieceText(p) + rest) == Some(([PieceMeans(p)] + Extract(rest).value.0, Extract(rest).value.1))
  {
    match p {
      case Plain(c) => assert (PieceText(p) + rest)[1..] == rest;
      case Short(c) => ShortReadAs(c, rest);
      case Hex(digits) => HexReadAs(digits, rest);
    }
  }

  lemma EscapeReadAs(d: Text, unit: Unit, rest: Text)
    requires d != [] && d[0] == BACKSLASH && Unescape(d[1..]) == Some((unit, rest)) && Extract(rest).Some?
    ensures Extract(d) == Some(([unit] + Extract(rest).value.0, Extract(rest).value.1))
  {
    hide Unescape;
  }

  lemma ShortReadAs(c: Unit, rest: Text)
    requires PieceOk(Short(c)) && Extract(rest).Some?
    ensures Extract([BACKSLASH, c] + rest) == Some(([ShortMeans(c)] + Extract(rest).value.0, Extract(rest).value.1))
  {
    var d := [BACKSLASH, c] + rest;
    assert d[1..] == [c] + rest && d[1..][1..] == rest;
    hide Extract;
    assert Unescape([c] + rest) == Some((ShortMeans(c), rest));
    EscapeReadAs(d, ShortMeans(c), rest);
  }

  lemma HexReadAs(digits: Text, rest: Text)
    requires PieceOk(Hex(digits)) && Extract(rest).Some?
    ensures Extract([BACKSLASH, 117] + digits + rest)
         == Some(([PieceMeans(Hex(digits))] + Extract(rest).value.0, Extract(rest).value.1))
  {
    var d, e := [BACKSLASH, 117] + digits + rest, [117] + digits + rest;
    UnescapeHexDigits(digits, rest);
    HexRunOfFour(digits, rest);
    assert d[1..] == e && e[1..] == digits + rest;
    hide HexRun, HexValue, PieceMeans, Extract;
    EscapeReadAs(d, PieceMeans(Hex(digits)), rest);
  }

  /** A string is read as the characters its pieces stand for. */
  lemma {:induction false} BodyMeans(ps: seq<Piece>, rest: Text)
    requires PiecesOk(ps)
    ensures Extract(Body(ps) + [QUOTE] + rest) == Some((PiecesMean(ps), rest))
    decreases |ps|
  {
    if ps == [] {
      assert Body(ps) + [QUOTE] + rest == [QUOTE] + rest;
      assert ([QUOTE] + rest)[1..] == rest;
    } else {
      BodyMeans(ps[1..], rest);
      assert Body(ps) + [QUOTE] + rest == PieceText(ps[0]) + (Body(ps[1..]) + [QUOTE] + rest);
      hide Extract, PieceText, PieceMeans;
      PieceReadAs(ps[0], Body(ps[1..]) + [QUOTE] + rest);
    }
  }

  // ----- numbers

  /** Ten to the n-th. */
  function Ten(n: nat): (t: real)
    ensures t > 0.0
  {
    if n == 0 then 1.0 else 10.0 * Ten(n - 1)
  }

  lemma {:induction false} ScaleIs(x: real, n: nat, down: bool)
    ensures Scale(x, n, down) == if down then x / Ten(n) else x * Ten(n)
    decreases n
  {
    if n > 0 {
      ScaleIs(if down then x / 10.0 else x * 10.0, n - 1, down);
      var t := Ten(n - 1);
      if down {
        DividedTwice(x, t);
      } else {
        assert x * 10.0 * t == x * (10.0 * t);
      }
    }
  }

  lemma DividedTwice(x: real, t: real)
    requires t > 0.0
    ensures x / 10.0 / t == x / (10.0 * t)
  {
    var y := x / 10.0 / t;
    assert y * t == x / 10.0;
    assert y * (10.0 * t) == 10.0 * (y * t) == x;
  }

  /** What a double holds of the integer that digits spell: the integer itself up to 2^53. */
  function Held(ds: Text): nat
    requires AllDigits(ds)
  {
    Summed(0, ds)
  }

  lemma HeldIs(ds: Text)
    requires AllDigits(ds)
    ensures Holds(Fold(0, ds), Held(ds))
    ensures Fold(0, ds) <= LIMIT ==> Held(ds) == Fold(0, ds)
  {
    SummedHolds(0, 0, ds);
  }

  predicate Negative(mark: Text) { |mark| == 2 && mark[1] == MINUS }

  function Decimals(ds: Text): real
    requires AllDigits(ds)
  {
    Fold(0, ds) as real / Ten(|ds|)
  }

  function Powered(x: real, n: nat, down: bool): real { if down then x / Ten(n) else x * Ten(n) }

  /** Whole part and decimals, times ten to the exponent. */
  function FigureMeans(f: Figure): real
    requires FigureOk(f)
  {
    var x := Powered(Held(f.whole) as real + Decimals(f.fraction), Held(f.power), Negative(f.mark));
    if f.neg then -x else x
  }

  lemma WholeMeans(whole: Text, rest: Text)
    requires whole != [] && AllDigits(whole) && (whole[0] == 48 ==> |whole| == 1) && !IsDigit(Head(rest))
    ensures WholePart(whole + rest) == Done(Held(whole) as real, rest) && Head(whole + rest) != MINUS
  {
    if whole[0] == 48 {
      assert (whole + rest)[1..] == rest;
      assert whole == [48];
      HeldIs([48]);
      assert Fold(0, [48]) == 0;
    } else {
      IntFromDigits(0, whole, rest);
      hide Summed, IntFrom;
    }
  }

  lemma Quotient(a: real, t: real, b: real)
    requires t > 0.0 && a * t == b
    ensures a == b / t
  {
  }

  lemma DecimalsMean(ds: Text, rest: Text)
    requires AllDigits(ds) && !IsDigit(Head(rest))
    ensures DecimalFrom(0.0, 0.1, ds + rest) == (Decimals(ds), rest)
  {
    hide DecimalFrom, Scale, Fold, Ten, Fraction, Weighted;
    DecimalMeaning(ds, rest);
    var r := DecimalFrom(0.0, 0.1, ds + rest);
    ScaleIs(r.0, |ds|, false);
    Quotient(r.0, Ten(|ds|), Fold(0, ds) as real);
  }

  lemma FractionMeans(x: real, f: Figure, rest: Text)
    requires AllDigits(f.fraction) && !IsDigit(Head(rest)) && Head(rest) != DOT
    ensures FractionPart(x, FractionText(f) + rest) == Done(x + Decimals(f.fraction), rest)
  {
    if f.fraction == [] {
      assert FractionText(f) + rest == rest;
      NoDecimals(f.fraction);
    } else {
      assert (FractionText(f) + rest)[1..] == f.fraction + rest;
      DecimalsMean(f.fraction, rest);
    }
    hide DecimalFrom, Decimals;
  }

  lemma NoDecimals(ds: Text)
    requires ds == []
    ensures AllDigits(ds) && Decimals(ds) == 0.0 && Held(ds) == 0
  {
    assert Ten(0) == 1.0;
  }

  lemma ScaleMeans(x: real, n: nat, down: bool)
    ensures Scale(x, n, down) == Powered(x, n, down)
  {
    ScaleIs(x, n, down);
  }

  lemma PowerMeans(x: real, f: Figure, rest: Text)
    requires FigureOk(f) && Stops(rest) && Held(f.power) <= LIMIT
    ensures ExponentPart(x, f.mark + f.power + rest) == Done(Powered(x, Held(f.power), Negative(f.mark)), rest)
  {
    hide Scale, IntFrom, LoopEnds, Summed, Powered;
    if f.mark == [] {
      assert f.mark + f.power + rest == rest;
      NoDecimals(f.power);
      NoPower(x);
    } else {
      MarkThen(f.mark, f.power, rest);
      IntFromDigits(0, f.power, rest);
      LoopEndsIff(Held(f.power));
      ScaleMeans(x, Held(f.power), Negative(f.mark));
    }
  }

  lemma NoPower(x: real)
    ensures Powered(x, 0, false) == x
  {
    assert Ten(0) == 1.0;
  }

  lemma MarkThen(mark: Text, power: Text, rest: Text)
    requires MarkOk(mark) && power != [] && AllDigits(power)
    ensures var d := mark + power + rest;
            var sign := Head(d[1..]);
            && IsExponent(Head(d)) && IsDigit(Head(power + rest))
            && (sign == MINUS <==> Negative(mark))
            && (if sign == MINUS || sign == PLUS then d[2..] else d[1..]) == power + rest
  {
    var d := mark + power + rest;
    assert Head(power + rest) == power[0];
    if |mark| == 1 { assert d[1..] == power + rest; } else { assert d[2..] == power + rest && d[1..][0] == mark[1]; }
  }

  lemma NumberOf(d: Text, neg: bool, d0: Text, x: real, d1: Text, y: real, d2: Text, z: real, rest: Text)
    requires (neg <==> Head(d) == MINUS) && d0 == (if neg then d[1..] else d)
    requires WholePart(d0) == Done(x, d1) && FractionPart(x, d1) == Done(y, d2)
    requires ExponentPart(y, d2) == Done(z, rest)
    ensures Number(d) == Done(if neg then -z else z, rest)
  {
    hide WholePart, FractionPart, ExponentPart;
  }

  lemma SignOf(neg: bool, d: Text)
    requires Head(d) != MINUS
    ensures var t := (if neg then [MINUS] else []) + d;
            (neg <==> Head(t) == MINUS) && (if neg then t[1..] else t) == d
  {
  }

  /** Part by part. */
  lemma PartsReadAs(f: Figure, rest: Text)
    requires FigureOk(f) && Stops(rest) && Held(f.power) <= LIMIT
    ensures var d2 := f.mark + f.power + rest;
            var d1 := FractionText(f) + d2;
            var y := Held(f.whole) as real + Decimals(f.fraction);
            && WholePart(f.whole + d1) == Done(Held(f.whole) as real, d1)
            && Head(f.whole + d1) != MINUS
            && FractionPart(Held(f.whole) as real, d1) == Done(y, d2)
            && ExponentPart(y, d2) == Done(Powered(y, Held(f.power), Negative(f.mark)), rest)
  {
    hide WholePart, FractionPart, ExponentPart, FractionText, Decimals, Powered, Held, ScanExponent, AfterFraction;
    var d2 := f.mark + f.power + rest;
    PowerMeans(Held(f.whole) as real + Decimals(f.fraction), f, rest);
    PowerRead(f, rest);
    FractionMeans(Held(f.whole) as real, f, d2);
    FractionRead(f, d2);
    WholeMeans(f.whole, FractionText(f) + d2);
  }

  lemma TextOf(f: Figure, rest: Text)
    requires Head(f.whole + (FractionText(f) + (f.mark + f.power + rest))) != MINUS
    ensures var d, d0 := FigureText(f) + rest, f.whole + (FractionText(f) + (f.mark + f.power + rest));
            (f.neg <==> Head(d) == MINUS) && d0 == (if f.neg then d[1..] else d)
  {
    hide FigureText, FractionText;
    var d2 := f.mark + f.power + rest;
    FigureJoined(f, FigureText(f) + rest, FractionText(f) + d2, d2, rest);
    SignOf(f.neg, f.whole + (FractionText(f) + d2));
  }

  /** A number is read as what it means. */
  lemma FigureReadAs(f: Figure, rest: Text)
    requires FigureOk(f) && Stops(rest) && Held(f.power) <= LIMIT
    ensures Number(FigureText(f) + rest) == Done(FigureMeans(f), rest)
  {
    hide WholePart, FractionPart, ExponentPart, FigureText, FractionText, Decimals, Powered, Held, Number, Stops;
    PartsReadAs(f, rest);
    TextOf(f, rest);
    var x := Held(f.whole) as real;
    var y := x + Decimals(f.fraction);
    var d2 := f.mark + f.power + rest;
    var d1 := FractionText(f) + d2;
    var z := Powered(y, Held(f.power), Negative(f.mark));
    NumberOf(FigureText(f) + rest, f.neg, f.whole + d1, x, d1, y, d2, z, rest);
  }

  // ----- values

  /** No exponent is too large to be counted to. */
  predicate Finite(s: Syntax)
    requires WellFormed(s)
    decreases s, 1
  {
    match s
    case Numeral(f) => Held(f.power) <= LIMIT
    case List(_, items) => FiniteItems(items)
    case Record(_, entries) => FiniteEntries(entries)
    case _ => true
  }

  predicate FiniteItems(items: seq<Item>)
    requires ItemsOk(items)
    decreases items, 0
  {
    items == [] || (assert ItemOk(items[0]); Finite(items[0].value) && FiniteItems(items[1..]))
  }

  predicate FiniteEntries(entries: seq<Entry>)
    requires EntriesOk(entries)
    decreases entries, 0
  {
    entries == [] || (assert EntryOk(entries[0]); Finite(entries[0].value) && FiniteEntries(entries[1..]))
  }

  function Means(s: Syntax): Value
    requires WellFormed(s)
    decreases s, 1
  {
    match s
    case Literal(word) => if word == TRUE then Bool(true) else if word == FALSE then Bool(false) else Null
    case Numeral(f) => Num(FigureMeans(f))
    case Chars(pieces) => Str(PiecesMean(pieces))
    case List(_, items) => Arr(ItemsMean(items))
    case Record(_, entries) => Obj(EntriesMean([], entries))
  }

  function ItemsMean(items: seq<Item>): seq<Value>
    requires ItemsOk(items)
    decreases items, 0
  {
    if items == [] then []
    else
      assert ItemOk(items[0]);
      [Means(items[0].value)] + ItemsMean(items[1..])
  }

  /** The members in order of their names; of equal names the last one counts. */
  function EntriesMean(acc: seq<Member>, entries: seq<Entry>): seq<Member>
    requires EntriesOk(entries)
    decreases entries, 0
  {
    if entries == [] then acc
    else
      assert EntryOk(entries[0]);
      EntriesMean(Put(acc, PiecesMean(entries[0].name), Means(entries[0].value)), entries[1..])
  }

  lemma {:induction false} ValueReadAs(s: Syntax, rest: Text)
    requires WellFormed(s) && Finite(s) && (s.Numeral? ==> Stops(rest))
    ensures ParseValue(Spell(s) + rest) == Done(Means(s), rest)
    decreases s, 1
  {
    match s {
      case Literal(word) => LiteralReadAs(word, rest);
      case Numeral(f) => NumeralReadAs(f, rest);
      case Chars(pieces) => CharsReadAs(pieces, rest);
      case List(blank, items) => ListReadAs(s, blank, items, rest);
      case Record(blank, entries) => RecordReadAs(s, blank, entries, rest);
    }
  }

  lemma LiteralReadAs(word: Text, rest: Text)
    requires word == TRUE || word == FALSE || word == NULL
    ensures ParseValue(word + rest) == Done(Means(Literal(word)), rest)
  {
    var d := word + rest;
    assert d[..|word|] == word && d[|word|..] == rest && d[0] == word[0];
    hide Extract, Number, ParseItems, ParseMembers;
    if word != TRUE { assert !Starts(d, TRUE) by { assert Lower(d[0]) != TRUE[0]; } }
    if word == NULL { assert !Starts(d, FALSE) by { assert Lower(d[0]) != FALSE[0]; } }
  }

  lemma NumeralReadAs(f: Figure, rest: Text)
    requires FigureOk(f) && Stops(rest) && Held(f.power) <= LIMIT
    ensures ParseValue(FigureText(f) + rest) == Done(Num(FigureMeans(f)), rest)
  {
    var d := FigureText(f) + rest;
    FigureReadAs(f, rest);
    FigureOpens(f);
    assert d[0] == FigureText(f)[0];
    hide Extract, Number, ParseItems, ParseMembers, Starts, FigureText, FigureMeans;
    NoWord(d);
  }

  lemma CharsReadAs(ps: seq<Piece>, rest: Text)
    requires PiecesOk(ps)
    ensures ParseValue([QUOTE] + Body(ps) + [QUOTE] + rest) == Done(Str(PiecesMean(ps)), rest)
  {
    BodyMeans(ps, rest);
    hide Body, Extract, Number, ParseItems, ParseMembers, Starts, PiecesMean;
    OpenedString(Body(ps), rest);
  }

  lemma {:induction false} ListReadAs(s: Syntax, blank: Text, items: seq<Item>, rest: Text)
    requires s == List(blank, items) && WellFormed(s) && Finite(s)
    ensures ParseValue(Spell(s) + rest) == Done(Means(s), rest)
    decreases s, 0
  {
    var d := Spell(s) + rest;
    hide Extract, Number, ParseItems, ParseMembers, Starts, Skip;
    Opened([OPEN_BRACKET], blank, SpellItems(items), [CLOSE_BRACKET], rest);
    NoWord(d);
    if items == [] {
      assert SpellItems(items) == [] && blank + [] == blank;
      EmptyReadAs(blank, rest);
    } else {
      assert [] + SpellItems(items) == SpellItems(items);
      ItemsReadAs(items, rest, []);
      assert [] + ItemsMean(items) == ItemsMean(items);
    }
  }

  lemma EmptyReadAs(blank: Text, rest: Text)
    requires Blank(blank)
    ensures ParseItems(blank + ([CLOSE_BRACKET] + rest), []) == Done(Arr([]), rest)
    ensures ParseMembers(blank + ([CLOSE_BRACE] + rest), []) == Done(Obj([]), rest)
  {
    SkipBlank(blank, [CLOSE_BRACKET] + rest);
    SkipBlank(blank, [CLOSE_BRACE] + rest);
    assert ([CLOSE_BRACKET] + rest)[1..] == rest && ([CLOSE_BRACE] + rest)[1..] == rest;
    hide ParseValue, ParseName, Skip;
  }

  /** A value with white space around it. */
  lemma {:induction false} PaddedReadAs(before: Text, s: Syntax, after: Text, next: Text)
    requires Blank(before) && WellFormed(s) && Finite(s) && Blank(after) && Ends(next)
    ensures var d := before + (Spell(s) + (after + next));
            && Skip(d) == Spell(s) + (after + next) && Opens(Head(Skip(d)))
            && ParseValue(Skip(d)) == Done(Means(s), after + next) && Skip(after + next) == next
    decreases s, 2
  {
    AfterStops(after, next);
    SpellOpens(s);
    hide Stops, Spell, WellFormed, Skip, ParseValue, Means;
    assert (Spell(s) + (after + next))[0] == Spell(s)[0];
    SkipBlank(before, Spell(s) + (after + next));
    ValueReadAs(s, after + next);
  }

  /** One round of the array loop. */
  lemma ItemRound(d: Text, acc: seq<Value>, v: Value, d2: Text)
    requires Opens(Head(Skip(d))) && ParseValue(Skip(d)) == Done(v, d2)
    ensures var next := Skip(d2);
            ParseItems(d, acc) == if Head(next) == CLOSE_BRACKET then Done(Arr(acc + [v]), next[1..])
                                  else if Head(next) == COMMA then ParseItems(next[1..], acc + [v]) else Fail
  {
    hide ParseValue, Skip;
  }

  lemma MoreItemsIs(items: seq<Item>, rest: Text)
    requires items != []
    ensures var next := MoreItems(items, rest);
            && next != [] && Ends(next)
            && (|items| == 1 ==> next[0] == CLOSE_BRACKET && next[1..] == rest)
            && (|items| > 1 ==> next[0] == COMMA && next[1..] == SpellItems(items[1..]) + ([CLOSE_BRACKET] + rest))
  {
    hide SpellItems;
  }

  lemma FirstMeans(items: seq<Item>, acc: seq<Value>)
    requires items != [] && ItemsOk(items) && FiniteItems(items)
    ensures ItemOk(items[0]) && Finite(items[0].value) && ItemsOk(items[1..]) && FiniteItems(items[1..])
    ensures acc + ItemsMean(items) == acc + [Means(items[0].value)] + ItemsMean(items[1..])
    ensures |items| == 1 ==> acc + ItemsMean(items) == acc + [Means(items[0].value)]
  {
    hide Means, WellFormed, Finite;
    assert ItemOk(items[0]);
  }

  lemma {:induction false} ItemsReadAs(items: seq<Item>, rest: Text, acc: seq<Value>)
    requires items != [] && ItemsOk(items) && FiniteItems(items)
    ensures ParseItems(SpellItems(items) + ([CLOSE_BRACKET] + rest), acc) == Done(Arr(acc + ItemsMean(items)), rest)
    decreases items, 0
  {
    hide ParseValue, Skip, Spell, SpellItems, WellFormed, Means, ItemsMean, ParseItems, ItemsOk, FiniteItems, MoreItems;
    FirstMeans(items, acc);
    MoreItemsIs(items, rest);
    ItemsSplit(items, rest);
    var d, next := SpellItems(items) + ([CLOSE_BRACKET] + rest), MoreItems(items, rest);
    var v := Means(items[0].value);
    PaddedReadAs(items[0].before, items[0].value, items[0].after, next);
    ItemRound(d, acc, v, items[0].after + next);
    if |items| > 1 { ItemsReadAs(items[1..], rest, acc + [v]); }
  }

  lemma {:induction false} RecordReadAs(s: Syntax, blank: Text, entries: seq<Entry>, rest: Text)
    requires s == Record(blank, entries) && WellFormed(s) && Finite(s)
    ensures ParseValue(Spell(s) + rest) == Done(Means(s), rest)
    decreases s, 0
  {
    var d := Spell(s) + rest;
    hide Extract, Number, ParseItems, ParseMembers, Starts, Skip;
    Opened([OPEN_BRACE], blank, SpellEntries(entries), [CLOSE_BRACE], rest);
    NoWord(d);
    if entries == [] {
      assert SpellEntries(entries) == [] && blank + [] == blank;
      EmptyReadAs(blank, rest);
    } else {
      assert [] + SpellEntries(entries) == SpellEntries(entries);
      EntriesReadAs(entries, rest, []);
    }
  }

  lemma NameReadAs(e: Entry, rest: Text)
    requires PiecesOk(e.name) && Blank(e.afterName)
    ensures var d := SpellName(e) + rest; d != [] && d[0] == QUOTE && ParseName(d) == Done(PiecesMean(e.name), rest)
  {
    var colon := [COLON] + rest;
    BodyMeans(e.name, e.afterName + colon);
    SkipBlank(e.afterName, colon);
    assert colon[1..] == rest;
    NameTail(Body(e.name), e.afterName, rest);
    hide Body, Skip, Extract, PiecesMean;
  }

  lemma MemberRound(d: Text, acc: seq<Member>, name: Text, v: Value, next: Text)
    requires var d1 := Skip(d);
             && d1 != [] && d1[0] == QUOTE && ParseName(d1).Done? && ParseName(d1).value == name
             && var d3 := Skip(ParseName(d1).rest);
                ParseValue(d3).Done? && ParseValue(d3).value == v && Skip(ParseValue(d3).rest) == next
    ensures ParseMembers(d, acc) == if Head(next) == CLOSE_BRACE then Done(Obj(Put(acc, name, v)), next[1..])
                                    else if Head(next) == COMMA then ParseMembers(next[1..], Put(acc, name, v))
                                    else Fail
  {
    hide ParseValue, ParseName, Skip, Put;
  }

  lemma {:induction false} EntriesReadAs(entries: seq<Entry>, rest: Text, acc: seq<Member>)
    requires entries != [] && EntriesOk(entries) && FiniteEntries(entries)
    ensures ParseMembers(SpellEntries(entries) + ([CLOSE_BRACE] + rest), acc)
         == Done(Obj(EntriesMean(acc, entries)), rest)
    decreases entries, 0
  {
    hide ParseValue, ParseName, ParseMembers, Skip, Spell, EntryThen, WellFormed, Means, PiecesMean, Put;
    var next, e := MoreEntries(entries, rest), entries[0];
    EntriesSplit(entries, rest);
    EntryReadAs(e, next);
    MemberRound(EntryThen(e, next), acc, PiecesMean(e.name), Means(e.value), next);
    assert next[1..] == if |entries| == 1 then rest else SpellEntries(entries[1..]) + ([CLOSE_BRACE] + rest);
    hide SpellEntries;
    if |entries| > 1 { EntriesReadAs(entries[1..], rest, Put(acc, PiecesMean(e.name), Means(e.value))); }
  }

  /** One round of the object loop. */
  lemma {:induction false} EntryReadAs(e: Entry, next: Text)
    requires EntryOk(e) && Finite(e.value) && Ends(next)
    ensures var d1 := Skip(EntryThen(e, next));
            && d1 != [] && d1[0] == QUOTE && ParseName(d1).Done? && ParseName(d1).value == PiecesMean(e.name)
            && var d3 := Skip(ParseName(d1).rest);
               && ParseValue(d3).Done? && ParseValue(d3).value == Means(e.value)
               && Skip(ParseValue(d3).rest) == next
    decreases e, 3
  {
    var value := e.beforeValue + (Spell(e.value) + (e.after + next));
    NameReadAs(e, value);
    PaddedReadAs(e.beforeValue, e.value, e.after, next);
    hide ParseValue, ParseName, Skip, Spell, SpellName, WellFormed, Means, PiecesMean;
    SkipBlank(e.before, SpellName(e) + value);
  }

  /** A document of the grammar is read as what it means. */
  lemma DocumentReadAs(before: Text, s: Syntax, after: Text, beyond: Text)
    requires WellFormed(s) && Finite(s)
    requires IsDocument(before + (Spell(s) + (after + beyond)), before, s, after, beyond)
    ensures ParseText(before + (Spell(s) + (after + beyond))) == Done(Means(s), beyond)
  {
    hide ParseValue, Skip, Spell, WellFormed, Means, Finite;
    PaddedReadAs(before, s, after, beyond);
    AfterStops(after, beyond);
  }
}

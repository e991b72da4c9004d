/** The grammar of RFC 8259, sections 2 to 7, as syntax trees and the texts they spell; and
    that the strict scanner accepts exactly these texts. */
module JsonSyntax {
  import opened JsonGrammar
  import opened JsonRoundTrip
  import opened JsonScan

  /** What stands between quotes: a character as it is, a short escape, or \u and four
      hex digits. */
  datatype Piece = Plain(c: Unit) | Short(c: Unit) | Hex(digits: Text)

  /** A number: sign, whole part, digits behind the point if there is one, e or E with its
      sign if there is an exponent, and the exponent's digits. */
  datatype Figure = Figure(neg: bool, whole: Text, fraction: Text, mark: Text, power: Text)

  datatype Syntax =
    | Literal(word: Text)
    | Numeral(figure: Figure)
    | Chars(pieces: seq<Piece>)
    | List(blank: Text, items: seq<Item>)
    | Record(blank: Text, entries: seq<Entry>)

  datatype Item = Item(before: Text, value: Syntax, after: Text)

  datatype Entry = Entry(before: Text, name: seq<Piece>, afterName: Text, beforeValue: Text, value: Syntax, after: Text)

  /** Space, tab, line feed and carriage return. */
  const WHITE: Text := [0x20, 0x09, 0x0a, 0x0d]

  predicate Blank(t: Text) { forall i :: 0 <= i < |t| ==> t[i] in WHITE }

  lemma WhiteIs(c: Unit)
    ensures c in WHITE <==> IsSpace(c)
  {
    assert WHITE[0] == 32 && WHITE[1] == 9 && WHITE[2] == 10 && WHITE[3] == 13;
  }

  predicate PieceOk(p: Piece) {
    match p
    case Plain(c) => c >= 32 && c != QUOTE && c != BACKSLASH
    case Short(c) =>
      c == QUOTE || c == BACKSLASH || c == SLASH || c == 98 || c == 102 || c == 110 || c == 114 || c == 116
    case Hex(digits) => |digits| == 4 && forall i :: 0 <= i < 4 ==> HexValue(digits[i]).Some?
  }

  predicate PiecesOk(ps: seq<Piece>) { forall i :: 0 <= i < |ps| ==> PieceOk(ps[i]) }

  function PieceText(p: Piece): Text {
    match p
    case Plain(c) => [c]
    case Short(c) => [BACKSLASH, c]
    case Hex(digits) => [BACKSLASH, 117] + digits
  }

  function Body(ps: seq<Piece>): Text {
    if ps == [] then [] else PieceText(ps[0]) + Body(ps[1..])
  }

  predicate MarkOk(mark: Text) {
    && 1 <= |mark| <= 2 && IsExponent(mark[0])
    && (|mark| == 2 ==> mark[1] == MINUS || mark[1] == PLUS)
  }

  predicate FigureOk(f: Figure) {
    && f.whole != [] && AllDigits(f.whole) && (f.whole[0] == 48 ==> |f.whole| == 1)
    && AllDigits(f.fraction) && AllDigits(f.power)
    && (f.mark == [] <==> f.power == []) && (f.mark != [] ==> MarkOk(f.mark))
  }

  function FractionText(f: Figure): Text { if f.fraction == [] then [] else [DOT] + f.fraction }

  function FigureText(f: Figure): Text {
    (if f.neg then [MINUS] else []) + f.whole + FractionText(f) + f.mark + f.power
  }

  predicate WellFormed(s: Syntax)
    decreases s, 1
  {
    match s
    case Literal(word) => word == TRUE || word == FALSE || word == NULL
    case Numeral(figure) => FigureOk(figure)
    case Chars(pieces) => PiecesOk(pieces)
    case List(blank, items) => Blank(blank) && (items != [] ==> blank == []) && ItemsOk(items)
    case Record(blank, entries) => Blank(blank) && (entries != [] ==> blank == []) && EntriesOk(entries)
  }

  predicate ItemOk(item: Item)
    decreases item, 2
  {
    Blank(item.before) && Blank(item.after) && WellFormed(item.value)
  }

  predicate ItemsOk(items: seq<Item>)
    decreases items, 0
  {
    items == [] || (ItemOk(items[0]) && ItemsOk(items[1..]))
  }

  predicate EntryOk(e: Entry)
    decreases e, 2
  {
    && Blank(e.before) && PiecesOk(e.name) && Blank(e.afterName) && Blank(e.beforeValue)
    && WellFormed(e.value) && Blank(e.after)
  }

  predicate EntriesOk(entries: seq<Entry>)
    decreases entries, 0
  {
    entries == [] || (EntryOk(entries[0]) && EntriesOk(entries[1..]))
  }

  function Spell(s: Syntax): Text
    decreases s, 1
  {
    match s
    case Literal(word) => word
    case Numeral(figure) => FigureText(figure)
    case Chars(pieces) => [QUOTE] + Body(pieces) + [QUOTE]
    case List(blank, items) => [OPEN_BRACKET] + blank + SpellItems(items) + [CLOSE_BRACKET]
    case Record(blank, entries) => [OPEN_BRACE] + blank + SpellEntries(entries) + [CLOSE_BRACE]
  }

  function SpellItems(items: seq<Item>): Text
    decreases items, 0
  {
    if items == [] then []
    else
      items[0].before + Spell(items[0].value) + items[0].after +
      (if |items| == 1 then [] else [COMMA] + SpellItems(items[1..]))
  }

  function SpellName(e: Entry): Text { [QUOTE] + Body(e.name) + [QUOTE] + e.afterName + [COLON] }

  function SpellEntries(entries: seq<Entry>): Text
    decreases entries, 0
  {
    if entries == [] then []
    else
      var e := entries[0];
      e.before + SpellName(e) + e.beforeValue + Spell(e.value) + e.after +
      (if |entries| == 1 then [] else [COMMA] + SpellEntries(entries[1..]))
  }

  /** A document: a value with white space around it. What follows a zero is not part of a
      text. */
  ghost predicate Conforms(d: Text) {
    exists before, s, after, beyond ::
      IsDocument(d, before, s, after, beyond)
  }

  predicate IsDocument(d: Text, before: Text, s: Syntax, after: Text, beyond: Text) {
    && Blank(before) && WellFormed(s) && Blank(after) && Head(beyond) == 0
    && d == before + (Spell(s) + (after + beyond))
  }

  // ----- white space

  lemma {:induction false} SkipBlank(blank: Text, d: Text)
    requires Blank(blank) && !IsSpace(Head(d))
    ensures Skip(blank + d) == d
    decreases |blank|
  {
    if blank == [] {
      assert blank + d == d;
    } else {
      assert (blank + d)[1..] == blank[1..] + d;
      SkipBlank(blank[1..], d);
    }
  }

  lemma BlankMore(c: Unit, blank: Text)
    requires IsSpace(c) && Blank(blank)
    ensures Blank([c] + blank)
  {
    WhiteIs(c);
  }

  lemma {:induction false} Skipped(d: Text) returns (blank: Text)
    ensures Blank(blank) && d == blank + Skip(d) && !IsSpace(Head(Skip(d)))
    decreases |d|
  {
    hide Blank, IsSpace;
    if IsSpace(Head(d)) {
      assert d != [] by { EndIsNoSpace(); }
      blank := Skipped(d[1..]);
      BlankMore(d[0], blank);
      assert d == [d[0]] + d[1..];
      blank := [d[0]] + blank;
    } else {
      blank := [];
      EndIsNoSpace();
    }
  }

  lemma EndIsNoSpace()
    ensures !IsSpace(0) && Blank([])
  {
  }

  // ----- strings

  lemma {:induction false} HexRunIf(d: Text, n: nat, acc: nat)
    requires n <= |d|
    ensures HexRun(d, n, acc).Some? <==> forall i :: 0 <= i < n ==> HexValue(d[i]).Some?
    decreases n
  {
    hide HexValue;
    if n > 0 && HexValue(d[0]).Some? {
      HexRunIf(d[1..], n - 1, 16 * acc + HexValue(d[0]).value);
      assert forall i :: 1 <= i < n ==> d[i] == d[1..][i - 1];
    }
  }

  lemma UnescapeHexDigits(digits: Text, rest: Text)
    requires PieceOk(Hex(digits))
    ensures Unescape([117] + digits + rest).Some? && Unescape([117] + digits + rest).value.1 == rest
  {
    var d := [117] + digits + rest;
    assert d[1..] == digits + rest && d[5..] == rest;
    HexRunIf(d[1..], 4, 0);
    assert forall i :: 0 <= i < 4 ==> d[i + 1] == digits[i];
    assert d[1] == digits[0] && d[2] == digits[1] && d[3] == digits[2] && d[4] == digits[3];
  }

  /** One piece is read as one step. */
  lemma PieceRead(p: Piece, rest: Text)
    requires PieceOk(p) && Extract(rest).Some?
    ensures var d := PieceText(p) + rest;
            && Extract(d).Some? && Extract(d).value.1 == Extract(rest).value.1 && Tabs(d) == Tabs(rest)
  {
    var d := PieceText(p) + rest;
    match p {
      case Plain(c) => assert d[1..] == rest;
      case Short(c) => assert d[1..][1..] == rest;
      case Hex(digits) =>
        UnescapeHexDigits(digits, rest);
        assert d[1..] == [117] + digits + rest;
        hide Unescape;
    }
  }

  lemma {:induction false} BodyRead(ps: seq<Piece>, rest: Text)
    requires PiecesOk(ps)
    ensures var d := Body(ps) + [QUOTE] + rest;
            Extract(d).Some? && Extract(d).value.1 == rest && Tabs(d) == 0
    decreases |ps|
  {
    if ps == [] {
      assert Body(ps) + [QUOTE] + rest == [QUOTE] + rest;
      assert ([QUOTE] + rest)[1..] == rest;
    } else {
      BodyRead(ps[1..], rest);
      assert Body(ps) + [QUOTE] + rest == PieceText(ps[0]) + (Body(ps[1..]) + [QUOTE] + rest);
      hide Extract, Tabs, PieceText;
      PieceRead(ps[0], Body(ps[1..]) + [QUOTE] + rest);
    }
  }

  /** What follows a backslash, if it can be read. */
  lemma EscapeOf(d: Text) returns (p: Piece)
    requires Unescape(d).Some?
    ensures PieceOk(p) && [BACKSLASH] + d == PieceText(p) + Unescape(d).value.1
  {
    if d[0] == 117 {
      HexRunIf(d[1..], 4, 0);
      p := Hex(d[1..5]);
      assert forall i :: 0 <= i < 4 ==> d[1..5][i] == d[1..][i];
      assert d == [117] + d[1..5] + d[5..];
    } else {
      p := Short(d[0]);
      assert d == [d[0]] + d[1..];
    }
  }

  lemma {:induction false} BodyOf(d: Text) returns (ps: seq<Piece>)
    requires Extract(d).Some? && Tabs(d) == 0
    ensures PiecesOk(ps) && d == Body(ps) + [QUOTE] + Extract(d).value.1
    decreases |d|
  {
    if d[0] == BACKSLASH {
      var p := EscapeOf(d[1..]);
      hide Unescape, PieceOk, PieceText;
      var more := BodyOf(Unescape(d[1..]).value.1);
      ps := BodyCons(d, p, more, Unescape(d[1..]).value.1, Extract(d).value.1);
    } else if d[0] == QUOTE {
      ps := [];
    } else {
      var more := BodyOf(d[1..]);
      ps := BodyCons(d, Plain(d[0]), more, d[1..], Extract(d).value.1);
    }
  }

  lemma BodyCons(d: Text, p: Piece, more: seq<Piece>, tail: Text, rest: Text) returns (ps: seq<Piece>)
    requires PieceOk(p) && PiecesOk(more) && d == PieceText(p) + tail && tail == Body(more) + [QUOTE] + rest
    ensures PiecesOk(ps) && d == Body(ps) + [QUOTE] + rest
  {
    hide PieceOk, PieceText;
    ps := [p] + more;
    assert ps[1..] == more;
    assert Body(ps) == PieceText(p) + Body(more);
  }

  // ----- numbers

  lemma {:induction false} DigitsRead(ds: Text, rest: Text)
    requires AllDigits(ds) && !IsDigit(Head(rest))
    ensures AfterDigits(ds + rest) == rest
    decreases |ds|
  {
    if ds == [] {
      assert ds + rest == rest;
    } else {
      assert (ds + rest)[1..] == ds[1..] + rest;
      DigitsRead(ds[1..], rest);
    }
  }

  lemma {:induction false} DigitsOf(d: Text) returns (ds: Text)
    ensures AllDigits(ds) && d == ds + AfterDigits(d) && (ds == [] <==> !IsDigit(Head(d)))
    decreases |d|
  {
    if IsDigit(Head(d)) {
      ds := DigitsOf(d[1..]);
      assert d == [d[0]] + d[1..];
      ds := [d[0]] + ds;
    } else {
      ds := [];
    }
  }

  lemma WholeRead(whole: Text, rest: Text)
    requires whole != [] && AllDigits(whole) && (whole[0] == 48 ==> |whole| == 1) && !IsDigit(Head(rest))
    ensures AfterWhole(whole + rest) == Some(rest) && Head(whole + rest) != MINUS
  {
    if whole[0] == 48 { assert (whole + rest)[1..] == rest; } else { DigitsRead(whole, rest); }
  }

  lemma FractionRead(f: Figure, rest: Text)
    requires AllDigits(f.fraction) && !IsDigit(Head(rest)) && Head(rest) != DOT
    ensures AfterFraction(FractionText(f) + rest) == Some(rest) && !IsDigit(Head(FractionText(f) + rest))
  {
    if f.fraction == [] {
      assert FractionText(f) + rest == rest;
    } else {
      assert (FractionText(f) + rest)[1..] == f.fraction + rest;
      DigitsRead(f.fraction, rest);
    }
  }

  lemma PowerRead(f: Figure, rest: Text)
    requires FigureOk(f) && Stops(rest)
    ensures var d := f.mark + f.power + rest;
            ScanExponent(d).ok && ScanExponent(d).rest == rest && !IsDigit(Head(d)) && Head(d) != DOT
  {
    var d := f.mark + f.power + rest;
    if f.mark == [] {
      assert d == rest;
    } else {
      assert Unsigned(d) == f.power + rest by {
        if |f.mark| == 1 { assert d[1..] == f.power + rest; } else { assert d[2..] == f.power + rest; }
      }
      DigitsRead(f.power, rest);
    }
  }

  lemma FigureRead(f: Figure, rest: Text)
    requires FigureOk(f) && Stops(rest)
    ensures ScanNumber(FigureText(f) + rest).ok && ScanNumber(FigureText(f) + rest).rest == rest
  {
    var d2 := f.mark + f.power + rest;
    var d1 := FractionText(f) + d2;
    PowerRead(f, rest);
    FractionRead(f, d2);
    WholeRead(f.whole, d1);
    hide FigureOk, AfterWhole, AfterFraction, ScanExponent, FigureText, FractionText;
    FigureJoined(f, FigureText(f) + rest, d1, d2, rest);
    SignRead(f.neg, f.whole + d1);
  }

  lemma SignRead(neg: bool, d: Text)
    requires Head(d) != MINUS
    ensures var t := (if neg then [MINUS] else []) + d;
            (if Head(t) == MINUS then t[1..] else t) == d
  {
  }

  lemma WholeOf(d: Text) returns (whole: Text)
    requires AfterWhole(d).Some?
    ensures whole != [] && AllDigits(whole) && (whole[0] == 48 ==> |whole| == 1) && d == whole + AfterWhole(d).value
  {
    if d[0] == 48 {
      whole := [48];
    } else {
      whole := DigitsOf(d);
      assert whole[0] == d[0];
    }
  }

  lemma FractionOf(d: Text) returns (fraction: Text)
    requires AfterFraction(d).Some?
    ensures AllDigits(fraction)
    ensures d == (if fraction == [] then [] else [DOT] + fraction) + AfterFraction(d).value
  {
    fraction := [];
    if Head(d) == DOT {
      fraction := DigitsOf(d[1..]);
      assert d == [DOT] + d[1..];
    }
  }

  lemma PowerOf(d: Text) returns (mark: Text, power: Text)
    requires ScanExponent(d).ok
    ensures AllDigits(power) && (mark == [] <==> power == []) && (mark != [] ==> MarkOk(mark))
    ensures d == mark + power + ScanExponent(d).rest
  {
    mark, power := [], [];
    if IsExponent(Head(d)) {
      mark := MarkOf(d);
      hide Unsigned, AfterDigits;
      power := DigitsOf(Unsigned(d));
      assert d == mark + (power + AfterDigits(Unsigned(d)));
    }
  }

  lemma MarkOf(d: Text) returns (mark: Text)
    requires IsExponent(Head(d))
    ensures MarkOk(mark) && d == mark + Unsigned(d)
  {
    var sign := Head(d[1..]);
    mark := if sign == MINUS || sign == PLUS then d[..2] else d[..1];
  }

  lemma FigureOf(d: Text) returns (f: Figure)
    requires ScanNumber(d).ok
    ensures FigureOk(f) && d == FigureText(f) + ScanNumber(d).rest
  {
    var neg := Head(d) == MINUS;
    var d0 := if neg then d[1..] else d;
    assert d == (if neg then [MINUS] else []) + d0;
    var whole := WholeOf(d0);
    var d1 := AfterWhole(d0).value;
    var fraction := FractionOf(d1);
    var d2 := AfterFraction(d1).value;
    var mark, power := PowerOf(d2);
    f := Figure(neg, whole, fraction, mark, power);
    hide AfterWhole, AfterFraction, ScanExponent;
    FigureJoined(f, d, d1, d2, ScanNumber(d).rest);
  }

  lemma FigureJoined(f: Figure, d: Text, d1: Text, d2: Text, rest: Text)
    requires d1 == FractionText(f) + d2 && d2 == f.mark + f.power + rest
    ensures d == FigureText(f) + rest <==> d == (if f.neg then [MINUS] else []) + (f.whole + d1)
  {
    hide FractionText;
  }

  // ----- every text of the grammar is scanned

  predicate Leaves(seen: Seen, rest: Text) { seen.ok && seen.rest == rest }

  lemma StringRead(ps: seq<Piece>, rest: Text)
    requires PiecesOk(ps)
    ensures Leaves(ScanString(Body(ps) + [QUOTE] + rest, true), rest)
  {
    BodyRead(ps, rest);
    hide Extract, Tabs, Body;
  }

  lemma Opened(open: Text, a: Text, b: Text, close: Text, rest: Text)
    requires |open| == 1
    ensures (open + a + b + close + rest)[1..] == a + b + (close + rest) && (open + a + b + close + rest)[0] == open[0]
  {
  }

  lemma ValueRead(s: Syntax, rest: Text)
    requires WellFormed(s) && (s.Numeral? ==> Stops(rest))
    ensures Leaves(ScanValue(Spell(s) + rest, true), rest)
    decreases s, 1
  {
    match s {
      case Literal(word) => LiteralRead(word, rest);
      case Numeral(figure) => NumeralRead(figure, rest);
      case Chars(pieces) => CharsRead(pieces, rest);
      case List(blank, items) => ListRead(s, blank, items, rest);
      case Record(blank, entries) => RecordRead(s, blank, entries, rest);
    }
  }

  lemma LiteralRead(word: Text, rest: Text)
    requires word == TRUE || word == FALSE || word == NULL
    ensures Leaves(ScanValue(word + rest, true), rest)
  {
    var d := word + rest;
    assert d[..|word|] == word && d[|word|..] == rest && d[0] == word[0];
    hide ScanString, ScanNumber, ScanItems, ScanMembers;
    if word != TRUE { assert !Starts(d, TRUE) by { assert Lower(d[0]) != TRUE[0]; } }
    if word == NULL { assert !Starts(d, FALSE) by { assert Lower(d[0]) != FALSE[0]; } }
  }

  lemma NumeralRead(f: Figure, rest: Text)
    requires FigureOk(f) && Stops(rest)
    ensures Leaves(ScanValue(FigureText(f) + rest, true), rest)
  {
    var d := FigureText(f) + rest;
    FigureRead(f, rest);
    FigureOpens(f);
    assert d[0] == FigureText(f)[0];
    hide ScanString, ScanNumber, ScanItems, ScanMembers, ScanWord, Starts, FigureText;
    NoWord(d);
  }

  lemma FigureOpens(f: Figure)
    requires FigureOk(f)
    ensures FigureText(f) != [] && (FigureText(f)[0] == MINUS || IsDigit(FigureText(f)[0]))
  {
  }

  lemma CharsRead(ps: seq<Piece>, rest: Text)
    requires PiecesOk(ps)
    ensures Leaves(ScanValue([QUOTE] + Body(ps) + [QUOTE] + rest, true), rest)
  {
    StringRead(ps, rest);
    hide Body, ScanString, ScanNumber, ScanItems, ScanMembers, ScanWord, Starts;
    OpenedString(Body(ps), rest);
  }

  lemma OpenedString(body: Text, rest: Text)
    ensures var d := [QUOTE] + body + [QUOTE] + rest; d[0] == QUOTE && d[1..] == body + [QUOTE] + rest
  {
  }

  /** A value begins with something other than white space, an end or a closing bracket. */
  lemma SpellOpens(s: Syntax)
    requires WellFormed(s)
    ensures Spell(s) != [] && Opens(Spell(s)[0])
  {
    match s {
      case Numeral(figure) => FigureOpens(figure);
      case _ =>
    }
  }

  lemma {:induction false} ListRead(s: Syntax, blank: Text, items: seq<Item>, rest: Text)
    requires s == List(blank, items) && WellFormed(s)
    ensures Leaves(ScanValue(Spell(s) + rest, true), rest)
    decreases s, 0
  {
    var d := Spell(s) + rest;
    hide ScanString, ScanNumber, ScanItems, ScanMembers, ScanWord, Starts, Skip;
    Opened([OPEN_BRACKET], blank, SpellItems(items), [CLOSE_BRACKET], rest);
    NoWord(d);
    if items == [] {
      assert SpellItems(items) == [] && blank + [] == blank;
      EmptyRead(blank, rest);
    } else {
      assert [] + SpellItems(items) == SpellItems(items);
      ItemsRead(items, rest, true);
    }
  }

  lemma EmptyRead(blank: Text, rest: Text)
    requires Blank(blank)
    ensures Leaves(ScanItems(blank + ([CLOSE_BRACKET] + rest), true, true), rest)
    ensures Leaves(ScanMembers(blank + ([CLOSE_BRACE] + rest), true, true), rest)
  {
    SkipBlank(blank, [CLOSE_BRACKET] + rest);
    SkipBlank(blank, [CLOSE_BRACE] + rest);
    assert ([CLOSE_BRACKET] + rest)[1..] == rest && ([CLOSE_BRACE] + rest)[1..] == rest;
    hide ScanValue, ScanName, Skip;
  }

  /** Where a value may end. */
  predicate Ends(next: Text) {
    Head(next) == COMMA || Head(next) == CLOSE_BRACKET || Head(next) == CLOSE_BRACE || Head(next) == 0
  }

  /** What comes behind an item does not continue a number. */
  lemma AfterStops(after: Text, next: Text)
    requires Blank(after) && Ends(next)
    ensures Stops(after + next) && Skip(after + next) == next
  {
    SkipBlank(after, next);
    if after == [] { assert after + next == next; } else { assert (after + next)[0] == after[0]; }
  }

  /** A value with white space around it. */
  lemma {:induction false} PaddedRead(before: Text, s: Syntax, after: Text, next: Text)
    requires Blank(before) && WellFormed(s) && Blank(after) && Ends(next)
    ensures var d := before + (Spell(s) + (after + next));
            && Skip(d) == Spell(s) + (after + next) && Opens(Head(Skip(d)))
            && ScanValue(Skip(d), true).ok && Skip(ScanValue(Skip(d), true).rest) == next
    decreases s, 2
  {
    AfterStops(after, next);
    SpellOpens(s);
    hide Stops, Spell, WellFormed, Skip, ScanValue;
    assert (Spell(s) + (after + next))[0] == Spell(s)[0];
    SkipBlank(before, Spell(s) + (after + next));
    ValueRead(s, after + next);
  }

  function MoreItems(items: seq<Item>, rest: Text): Text
    requires items != []
  {
    if |items| == 1 then [CLOSE_BRACKET] + rest else [COMMA] + (SpellItems(items[1..]) + ([CLOSE_BRACKET] + rest))
  }

  function MoreText(items: seq<Item>): Text
    requires items != []
  {
    if |items| == 1 then [] else [COMMA] + SpellItems(items[1..])
  }

  lemma MoreJoined(items: seq<Item>, rest: Text)
    requires items != []
    ensures MoreText(items) + ([CLOSE_BRACKET] + rest) == MoreItems(items, rest)
  {
    hide SpellItems;
  }

  lemma SpellFirst(items: seq<Item>)
    requires items != []
    ensures SpellItems(items) == items[0].before + Spell(items[0].value) + items[0].after + MoreText(items)
  {
    hide Spell;
  }

  lemma ItemsSplit(items: seq<Item>, rest: Text)
    requires items != []
    ensures SpellItems(items) + ([CLOSE_BRACKET] + rest)
         == items[0].before + (Spell(items[0].value) + (items[0].after + MoreItems(items, rest)))
  {
    hide Spell, SpellItems, MoreText, MoreItems;
    SpellFirst(items);
    MoreJoined(items, rest);
    FlattenLast(items[0].before, Spell(items[0].value), items[0].after, MoreText(items), [CLOSE_BRACKET] + rest);
  }

  lemma FlattenLast(a: Text, b: Text, c: Text, more: Text, close: Text)
    ensures (a + b + c + more) + close == a + (b + (c + (more + close)))
  {
    Flatten3(a, b, c, more + close);
  }

  lemma {:induction false} ItemsRead(items: seq<Item>, rest: Text, first: bool)
    requires items != [] && ItemsOk(items)
    ensures Leaves(ScanItems(SpellItems(items) + ([CLOSE_BRACKET] + rest), first, true), rest)
    decreases items, 0
  {
    var d, next := SpellItems(items) + ([CLOSE_BRACKET] + rest), MoreItems(items, rest);
    ItemsSplit(items, rest);
    PaddedRead(items[0].before, items[0].value, items[0].after, next);
    hide ScanValue, Skip, Spell, WellFormed;
    assert next[1..] == if |items| == 1 then rest else SpellItems(items[1..]) + ([CLOSE_BRACKET] + rest);
    if |items| > 1 { ItemsRead(items[1..], rest, false); }
  }

  lemma {:induction false} RecordRead(s: Syntax, blank: Text, entries: seq<Entry>, rest: Text)
    requires s == Record(blank, entries) && WellFormed(s)
    ensures Leaves(ScanValue(Spell(s) + rest, true), rest)
    decreases s, 0
  {
    var d := Spell(s) + rest;
    hide ScanString, ScanNumber, ScanItems, ScanMembers, ScanWord, Starts, Skip;
    Opened([OPEN_BRACE], blank, SpellEntries(entries), [CLOSE_BRACE], rest);
    NoWord(d);
    if entries == [] {
      assert SpellEntries(entries) == [] && blank + [] == blank;
      EmptyRead(blank, rest);
    } else {
      assert [] + SpellEntries(entries) == SpellEntries(entries);
      EntriesRead(entries, rest, true);
    }
  }

  lemma NameRead(e: Entry, rest: Text)
    requires PiecesOk(e.name) && Blank(e.afterName)
    ensures var d := SpellName(e) + rest; d != [] && d[0] == QUOTE && Leaves(ScanName(d, true), rest)
  {
    var colon := [COLON] + rest;
    StringRead(e.name, e.afterName + colon);
    SkipBlank(e.afterName, colon);
    assert colon[1..] == rest;
    NameTail(Body(e.name), e.afterName, rest);
    hide Body, Skip, ScanString;
  }

  lemma NameTail(body: Text, afterName: Text, rest: Text)
    ensures var d := [QUOTE] + body + [QUOTE] + afterName + [COLON] + rest;
            d[0] == QUOTE && d[1..] == body + [QUOTE] + (afterName + ([COLON] + rest))
  {
  }

  /** An entry, and what comes behind it. */
  function EntryThen(e: Entry, next: Text): Text {
    e.before + (SpellName(e) + (e.beforeValue + (Spell(e.value) + (e.after + next))))
  }

  function MoreEntries(entries: seq<Entry>, rest: Text): Text
    requires entries != []
  {
    if |entries| == 1 then [CLOSE_BRACE] + rest else [COMMA] + (SpellEntries(entries[1..]) + ([CLOSE_BRACE] + rest))
  }

  lemma EntriesSplit(entries: seq<Entry>, rest: Text)
    requires entries != []
    ensures SpellEntries(entries) + ([CLOSE_BRACE] + rest) == EntryThen(entries[0], MoreEntries(entries, rest))
  {
    hide Spell, SpellName;
  }

  lemma {:induction false} EntriesRead(entries: seq<Entry>, rest: Text, first: bool)
    requires entries != [] && EntriesOk(entries)
    ensures Leaves(ScanMembers(SpellEntries(entries) + ([CLOSE_BRACE] + rest), first, true), rest)
    decreases entries, 0
  {
    hide ScanValue, ScanName, Skip, Spell, EntryThen, WellFormed;
    var next, e := MoreEntries(entries, rest), entries[0];
    EntriesSplit(entries, rest);
    EntryRead(e, next);
    assert next[1..] == if |entries| == 1 then rest else SpellEntries(entries[1..]) + ([CLOSE_BRACE] + rest);
    hide SpellEntries;
    if |entries| > 1 { EntriesRead(entries[1..], rest, false); }
  }

  /** One round of the object loop. */
  lemma {:induction false} EntryRead(e: Entry, next: Text)
    requires EntryOk(e) && Ends(next)
    ensures var d1 := Skip(EntryThen(e, next));
            && d1 != [] && d1[0] == QUOTE && ScanName(d1, true).ok
            && var d3 := Skip(ScanName(d1, true).rest);
               ScanValue(d3, true).ok && Skip(ScanValue(d3, true).rest) == next
    decreases e, 3
  {
    var value := e.beforeValue + (Spell(e.value) + (e.after + next));
    NameRead(e, value);
    PaddedRead(e.beforeValue, e.value, e.after, next);
    hide ScanValue, ScanName, Skip, Spell, SpellName, WellFormed;
    SkipBlank(e.before, SpellName(e) + value);
  }

  // ----- every text that is scanned is of the grammar

  lemma SyntaxOf(d: Text) returns (s: Syntax)
    requires ScanValue(d, true).ok
    ensures WellFormed(s) && d == Spell(s) + ScanValue(d, true).rest
    decreases |d|, 0
  {
    hide ScanNumber, ScanItems, ScanMembers, ScanString, Starts, FigureOk, ItemsOk, EntriesOk, SpellItems, SpellEntries;
    WordsFit(d);
    var c := Head(d);
    if c == QUOTE {
      s := CharsOf(d);
    } else if Starts(d, TRUE) || Starts(d, FALSE) || Starts(d, NULL) {
      s := LiteralOf(d);
    } else if c == MINUS || IsDigit(c) {
      var f := FigureOf(d);
      s := Numeral(f);
    } else if c == OPEN_BRACE {
      var blank, entries := EntriesOf(d[1..], true);
      s := Record(blank, entries);
      Joined(d, blank, SpellEntries(entries), [CLOSE_BRACE], ScanMembers(d[1..], true, true).rest);
    } else {
      var blank, items := ItemsOf(d[1..], true);
      s := List(blank, items);
      Joined(d, blank, SpellItems(items), [CLOSE_BRACKET], ScanItems(d[1..], true, true).rest);
    }
  }

  lemma Joined(d: Text, a: Text, b: Text, close: Text, rest: Text)
    requires d != [] && d[1..] == a + b + close + rest
    ensures d == [d[0]] + a + b + close + rest
  {
    assert d == [d[0]] + d[1..];
    Flatten3([d[0]], a, b, close + rest);
    assert a + b + close + rest == a + (b + (close + rest));
  }

  lemma CharsOf(d: Text) returns (s: Syntax)
    requires Head(d) == QUOTE && ScanString(d[1..], true).ok
    ensures WellFormed(s) && d == Spell(s) + ScanString(d[1..], true).rest
  {
    var ps := BodyOf(d[1..]);
    hide Extract, Tabs, Body, PiecesOk;
    s := Chars(ps);
    assert d == [d[0]] + d[1..];
  }

  lemma LiteralOf(d: Text) returns (s: Syntax)
    requires Head(d) != QUOTE && ScanValue(d, true).ok && (Starts(d, TRUE) || Starts(d, FALSE) || Starts(d, NULL))
    ensures WellFormed(s) && d == Spell(s) + ScanValue(d, true).rest
  {
    WordsFit(d);
    hide ScanNumber, ScanItems, ScanMembers, ScanString;
    s := Literal(if Starts(d, TRUE) then TRUE else if Starts(d, FALSE) then FALSE else NULL);
    hide Starts;
    assert d == d[..|s.word|] + d[|s.word|..];
  }

  lemma ItemsOf(d: Text, first: bool) returns (blank: Text, items: seq<Item>)
    requires ScanItems(d, first, true).ok
    ensures Blank(blank) && (items != [] ==> blank == []) && (!first ==> items != []) && ItemsOk(items)
    ensures d == blank + SpellItems(items) + [CLOSE_BRACKET] + ScanItems(d, first, true).rest
    decreases |d|, 1
  {
    var before := Skipped(d);
    var d1 := Skip(d);
    hide ScanValue, Skip;
    if first && Head(d1) == CLOSE_BRACKET {
      blank, items := before, [];
      assert d1 == [CLOSE_BRACKET] + d1[1..];
    } else {
      blank := [];
      var value := SyntaxOf(d1);
      var after := Skipped(ScanValue(d1, true).rest);
      var d3 := Skip(ScanValue(d1, true).rest);
      var item := Item(before, value, after);
      assert d3 == [d3[0]] + d3[1..];
      if d3[0] == CLOSE_BRACKET {
        items := [item];
        OneItem(item, d, d3[1..]);
      } else {
        var none, more := ItemsOf(d3[1..], false);
        items := ItemCons(item, more, d, d3[1..], ScanItems(d, first, true).rest);
      }
    }
  }

  lemma OneItem(item: Item, d: Text, rest: Text)
    requires ItemOk(item) && d == item.before + (Spell(item.value) + (item.after + ([CLOSE_BRACKET] + rest)))
    ensures ItemsOk([item]) && d == [] + SpellItems([item]) + [CLOSE_BRACKET] + rest
  {
    hide Blank, WellFormed, Spell;
    assert [item][1..] == [];
  }

  lemma ItemCons(item: Item, more: seq<Item>, d: Text, tail: Text, rest: Text) returns (items: seq<Item>)
    requires ItemOk(item) && more != [] && ItemsOk(more)
    requires d == item.before + (Spell(item.value) + (item.after + ([COMMA] + tail)))
    requires tail == [] + SpellItems(more) + [CLOSE_BRACKET] + rest
    ensures items != [] && ItemsOk(items) && d == [] + SpellItems(items) + [CLOSE_BRACKET] + rest
  {
    items := [item] + more;
    assert items[1..] == more;
    hide Blank, WellFormed, Spell;
    var x := item.before + Spell(item.value) + item.after;
    assert SpellItems(items) == x + ([COMMA] + SpellItems(more));
    hide SpellItems;
    Flatten3(item.before, Spell(item.value), item.after, [COMMA] + tail);
    Regroup(x, [COMMA], SpellItems(more), [CLOSE_BRACKET], rest);
  }

  lemma Flatten3(a: Text, b: Text, c: Text, t: Text)
    ensures a + (b + (c + t)) == (a + b + c) + t
  {
  }

  lemma Regroup(x: Text, comma: Text, more: Text, close: Text, rest: Text)
    ensures x + (comma + ([] + more + close + rest)) == [] + (x + (comma + more)) + close + rest
  {
    assert [] + more == more;
  }

  lemma NameOf(d: Text) returns (name: seq<Piece>, afterName: Text)
    requires d != [] && ScanName(d, true).ok
    ensures PiecesOk(name) && Blank(afterName)
    ensures d == [QUOTE] + Body(name) + [QUOTE] + afterName + [COLON] + ScanName(d, true).rest
  {
    name := BodyOf(d[1..]);
    var d1 := ScanString(d[1..], true).rest;
    hide Extract, Tabs, Body, PiecesOk, Skip;
    afterName := Skipped(d1);
    NameText(d, d1, Skip(d1), Body(name), afterName);
  }

  lemma NameText(d: Text, d1: Text, d2: Text, body: Text, afterName: Text)
    requires d != [] && d[0] == QUOTE && d[1..] == body + [QUOTE] + d1 && d1 == afterName + d2
    requires d2 != [] && d2[0] == COLON
    ensures d == [QUOTE] + body + [QUOTE] + afterName + [COLON] + d2[1..]
  {
    assert d == [QUOTE] + d[1..] && d2 == [COLON] + d2[1..];
    Flatten3([QUOTE] + body, [QUOTE], afterName, d2);
  }

  lemma EntriesOf(d: Text, first: bool) returns (blank: Text, entries: seq<Entry>)
    requires ScanMembers(d, first, true).ok
    ensures Blank(blank) && (entries != [] ==> blank == []) && (!first ==> entries != []) && EntriesOk(entries)
    ensures d == blank + SpellEntries(entries) + [CLOSE_BRACE] + ScanMembers(d, first, true).rest
    decreases |d|, 1
  {
    var before := Skipped(d);
    var d1 := Skip(d);
    hide ScanValue, ScanName, Skip;
    if first && Head(d1) == CLOSE_BRACE {
      blank, entries := before, [];
      assert d1 == [CLOSE_BRACE] + d1[1..];
    } else {
      blank := [];
      var name, afterName := NameOf(d1);
      var d2 := ScanName(d1, true).rest;
      var beforeValue := Skipped(d2);
      var d3 := Skip(d2);
      var value := SyntaxOf(d3);
      var d4 := ScanValue(d3, true).rest;
      var after := Skipped(d4);
      var d5 := Skip(d4);
      var e := Entry(before, name, afterName, beforeValue, value, after);
      assert d5 == [d5[0]] + d5[1..];
      EntryText(e, d, d1, d2, d3, d4, d5);
      if d5[0] == CLOSE_BRACE {
        entries := [e];
        OneEntry(e, d, d5[1..]);
      } else {
        var none, more := EntriesOf(d5[1..], false);
        entries := EntryCons(e, more, d, d5[1..], ScanMembers(d, first, true).rest);
      }
    }
  }

  lemma EntryText(e: Entry, d: Text, d1: Text, d2: Text, d3: Text, d4: Text, d5: Text)
    requires d == e.before + d1 && d1 == [QUOTE] + Body(e.name) + [QUOTE] + e.afterName + [COLON] + d2
    requires d2 == e.beforeValue + d3 && d3 == Spell(e.value) + d4 && d4 == e.after + d5
    ensures d == EntryThen(e, d5)
  {
    hide Body, Spell;
    assert d1 == SpellName(e) + d2;
  }

  lemma OneEntry(e: Entry, d: Text, rest: Text)
    requires EntryOk(e)
    requires d == EntryThen(e, [CLOSE_BRACE] + rest)
    ensures EntriesOk([e]) && d == [] + SpellEntries([e]) + [CLOSE_BRACE] + rest
  {
    hide Blank, PiecesOk, WellFormed, Spell, SpellName;
    assert [e][1..] == [];
    EntryFlat(e, [CLOSE_BRACE] + rest);
    hide EntryThen;
  }

  lemma EntryCons(e: Entry, more: seq<Entry>, d: Text, tail: Text, rest: Text) returns (entries: seq<Entry>)
    requires EntryOk(e) && more != [] && EntriesOk(more)
    requires d == EntryThen(e, [COMMA] + tail)
    requires tail == [] + SpellEntries(more) + [CLOSE_BRACE] + rest
    ensures entries != [] && EntriesOk(entries) && d == [] + SpellEntries(entries) + [CLOSE_BRACE] + rest
  {
    entries := [e] + more;
    assert entries[1..] == more;
    hide Blank, PiecesOk, WellFormed, Spell, SpellName;
    var x := e.before + SpellName(e) + e.beforeValue + Spell(e.value) + e.after;
    assert SpellEntries(entries) == x + ([COMMA] + SpellEntries(more));
    hide SpellEntries, EntryThen;
    EntryFlat(e, [COMMA] + tail);
    Regroup(x, [COMMA], SpellEntries(more), [CLOSE_BRACE], rest);
  }

  lemma EntryFlat(e: Entry, next: Text)
    ensures EntryThen(e, next) == e.before + SpellName(e) + e.beforeValue + Spell(e.value) + e.after + next
  {
    hide SpellName, Spell;
    Flatten3(e.beforeValue, Spell(e.value), e.after, next);
    Flatten3(e.before, SpellName(e), e.beforeValue + Spell(e.value) + e.after, next);
  }

  // ----- the theorem

  /** The strict scanner accepts exactly the documents of the grammar. */
  lemma StrictIsGrammar(d: Text)
    ensures Document(d, true) <==> Conforms(d)
  {
    hide ScanValue, Skip, WellFormed, Spell;
    if Document(d, true) {
      var before := Skipped(d);
      var s := SyntaxOf(Skip(d));
      var rest := ScanValue(Skip(d), true).rest;
      var after := Skipped(rest);
      assert IsDocument(d, before, s, after, Skip(rest));
    }
    if before, s, after, beyond :| IsDocument(d, before, s, after, beyond) {
      PaddedRead(before, s, after, beyond);
    }
  }

  /** So what the parser accepts without raw tabs, names without an opening quote and
      capitals in literals is the grammar, but for exponents above 2^53 + 1. */
  lemma AcceptedTexts(d: Text)
    ensures var seen := ScanValue(Skip(d), false);
            ParseText(d).Done? && seen.quirks == 0 <==> Conforms(d) && !TooBig(seen.exps)
  {
    hide ScanValue, Skip, ParseText, TooBig, Conforms;
    StrictIsGrammar(d);
    StrictDocuments(d);
    ParseAccepts(d);
  }
}

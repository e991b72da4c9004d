/** What is printed is a document of the grammar of RFC 8259, and means the value. */
module JsonPrinted {
  import opened Doubles
  import opened JsonGrammar
  import opened JsonRoundTrip
  import opened JsonScan
  import opened JsonSyntax
  import opened JsonMeaning

  /** All numbers print as integers. */
  predicate Whole(v: Value)
    decreases v, 0
  {
    match v
    case Num(n) => IsSmallInt(n)
    case Arr(items) => WholeItems(items)
    case Obj(ms) => WholeMembers(ms)
    case _ => true
  }

  predicate WholeItems(items: seq<Value>)
    decreases items, 0
  {
    items == [] || (Whole(items[0]) && WholeItems(items[1..]))
  }

  predicate WholeMembers(ms: seq<Member>)
    decreases ms, 0
  {
    ms == [] || (Whole(ms[0].value) && WholeMembers(ms[1..]))
  }

  // ----- strings

  function UnitPiece(c: Unit): Piece {
    if c == QUOTE || c == BACKSLASH || c == SLASH then Short(c)
    else if c == 8 then Short(98)
    else if c == 12 then Short(102)
    else if c == 10 then Short(110)
    else if c == 13 then Short(114)
    else if c == 9 then Short(116)
    else if c < 32 then Hex(Hex4(c))
    else Plain(c)
  }

  lemma UnitSpelt(c: Unit)
    ensures PieceOk(UnitPiece(c)) && PieceText(UnitPiece(c)) == EscapeUnit(c)
  {
    hide HexDigit, HexValue;
    HexOfDigit(c / 4096 % 16);
    HexOfDigit(c / 256 % 16);
    HexOfDigit(c / 16 % 16);
    HexOfDigit(c % 16);
  }

  function Pieces(s: Text): seq<Piece> {
    if s == [] then [] else [UnitPiece(s[0])] + Pieces(s[1..])
  }

  lemma {:induction false} PiecesSpelt(s: Text)
    ensures PiecesOk(Pieces(s)) && Body(Pieces(s)) == Escape(s)
    decreases |s|
  {
    hide PieceOk, PieceText, UnitPiece, EscapeUnit;
    if s != [] {
      UnitSpelt(s[0]);
      PiecesSpelt(s[1..]);
      assert Pieces(s)[1..] == Pieces(s[1..]);
    }
  }

  // ----- values

  function IntFigure(n: int): Figure {
    Figure(n < 0, Digits(if n < 0 then -n else n), [], [], [])
  }

  lemma IntSpelt(n: int)
    ensures FigureOk(IntFigure(n)) && FigureText(IntFigure(n)) == IntText(n)
  {
    var m: nat := if n < 0 then -n else n;
    if m == 0 { assert Digits(0) == [48]; }
    hide Digits;
    var f := IntFigure(n);
    assert FractionText(f) == [];
    assert (if f.neg then [MINUS] else []) + f.whole + [] + [] + [] == (if f.neg then [MINUS] else []) + f.whole;
    assert [] + f.whole == f.whole;
  }

  /** The syntax tree that is printed. */
  function Tree(v: Value): Syntax
    decreases v, 1
  {
    match v
    case Null => Literal(NULL)
    case Bool(b) => Literal(if b then TRUE else FALSE)
    case Num(n) => Numeral(IntFigure(n.Floor))
    case Str(s) => Chars(Pieces(s))
    case Arr(items) => List([], ItemTrees(items))
    case Obj(ms) => Record([], EntryTrees(ms))
  }

  function ItemTrees(items: seq<Value>): (r: seq<Item>)
    ensures |r| == |items|
    decreases items, 0
  {
    if items == [] then [] else [Item([], Tree(items[0]), [])] + ItemTrees(items[1..])
  }

  function EntryTrees(ms: seq<Member>): (r: seq<Entry>)
    ensures |r| == |ms|
    decreases ms, 0
  {
    if ms == [] then []
    else [Entry([], Pieces(ms[0].name), [], [], Tree(ms[0].value), [])] + EntryTrees(ms[1..])
  }

  lemma {:induction false} TreeSpelt(v: Value, fmt: real -> Text)
    requires Whole(v)
    ensures WellFormed(Tree(v)) && Finite(Tree(v)) && Spell(Tree(v)) == Print(v, fmt)
    decreases v, 1
  {
    match v
    case Num(n) =>
      IntSpelt(n.Floor);
      NoDecimals([]);
      hide FigureOk, FigureText, IntText, Held;
    case Str(s) => PiecesSpelt(s);
    case Arr(items) =>
      ItemsSpelt(items, fmt);
      hide SpellItems, PrintItems;
      assert [OPEN_BRACKET] + [] == [OPEN_BRACKET];
    case Obj(ms) =>
      MembersSpelt(ms, fmt);
      hide SpellEntries, PrintMembers;
      assert [OPEN_BRACE] + [] == [OPEN_BRACE];
    case _ =>
  }

  lemma {:induction false} ItemsSpelt(items: seq<Value>, fmt: real -> Text)
    requires WholeItems(items)
    ensures ItemsOk(ItemTrees(items)) && FiniteItems(ItemTrees(items))
    ensures SpellItems(ItemTrees(items)) == PrintItems(items, fmt)
    decreases items, 0
  {
    if items != [] {
      TreeSpelt(items[0], fmt);
      ItemsSpelt(items[1..], fmt);
      var r := ItemTrees(items);
      assert r[1..] == ItemTrees(items[1..]);
      hide Tree, WellFormed, Finite, Spell, Print;
      assert ItemOk(r[0]);
      assert [] + Spell(r[0].value) + [] == Spell(r[0].value);
    }
  }

  lemma {:induction false} MembersSpelt(ms: seq<Member>, fmt: real -> Text)
    requires WholeMembers(ms)
    ensures EntriesOk(EntryTrees(ms)) && FiniteEntries(EntryTrees(ms))
    ensures SpellEntries(EntryTrees(ms)) == PrintMembers(ms, fmt)
    decreases ms, 0
  {
    if ms != [] {
      TreeSpelt(ms[0].value, fmt);
      PiecesSpelt(ms[0].name);
      MembersSpelt(ms[1..], fmt);
      var r := EntryTrees(ms);
      assert r[1..] == EntryTrees(ms[1..]);
      hide Tree, WellFormed, Finite, Spell, Print, PiecesOk, Body, Escape;
      assert EntryOk(r[0]);
      NameSpelt(r[0], ms[0].name);
    }
  }

  lemma NameSpelt(e: Entry, name: Text)
    requires e.before == [] && e.afterName == [] && e.beforeValue == [] && e.after == [] && Body(e.name) == Escape(name)
    ensures e.before + SpellName(e) + e.beforeValue + Spell(e.value) + e.after
         == Quoted(name) + [COLON] + Spell(e.value)
  {
    hide Body, Escape, Spell;
    assert [QUOTE] + Escape(name) + [QUOTE] + [] == [QUOTE] + Escape(name) + [QUOTE];
  }

  /** Whatever strings and names it has, a value with whole numbers is printed as a document
      of the grammar. */
  lemma PrintedConforms(v: Value, fmt: real -> Text)
    requires Whole(v)
    ensures Conforms(Print(v, fmt))
  {
    TreeSpelt(v, fmt);
    hide Spell, WellFormed, Print, Tree;
    var d := Print(v, fmt);
    assert [] + (Spell(Tree(v)) + ([] + [])) == d;
    assert IsDocument(d, [], Tree(v), [], []);
  }

  /** And what is printed means the value. */
  lemma PrintedMeans(v: Value, fmt: real -> Text)
    requires Printable(v)
    ensures Whole(v) && WellFormed(Tree(v)) && Spell(Tree(v)) == Print(v, fmt) && Means(Tree(v)) == v
  {
    PrintableWhole(v);
    TreeSpelt(v, fmt);
    hide Spell, WellFormed, Print, Tree, Means, ParseValue;
    NothingStops();
    ValueReadAs(Tree(v), []);
    ParsePrinted(v, fmt, []);
  }

  lemma NothingStops()
    ensures Stops([])
  {
  }

  lemma {:induction false} PrintableWhole(v: Value)
    requires Printable(v)
    ensures Whole(v)
    decreases v, 1
  {
    match v
    case Arr(items) => PrintableWholeItems(items);
    case Obj(ms) => PrintableWholeMembers(ms);
    case _ =>
  }

  lemma {:induction false} PrintableWholeItems(items: seq<Value>)
    requires PrintableItems(items)
    ensures WholeItems(items)
    decreases items, 0
  {
    if items != [] {
      PrintableWhole(items[0]);
      PrintableWholeItems(items[1..]);
    }
  }

  lemma {:induction false} PrintableWholeMembers(ms: seq<Member>)
    requires PrintableMembers(ms)
    ensures WholeMembers(ms)
    decreases ms, 0
  {
    if ms != [] {
      PrintableWhole(ms[0].value);
      PrintableWholeMembers(ms[1..]);
    }
  }
}

/** A scanner that only looks at the grammar, computes no values and ends on every text.
    It tells exactly which texts the parser accepts, on which it does not end, and how
    far what is accepted departs from section 2 to 7 of RFC 8259. */
module JsonScan {
  import opened Doubles
  import opened JsonGrammar
  import opened JsonRoundTrip

  /** Whether a value was found, what follows it, the exponents met, and the number of
      departures from the grammar: raw tabs, names without an opening quote, literals
      not in lower case. */
  datatype Seen = Seen(ok: bool, rest: Text, exps: seq<nat>, quirks: nat)

  const NOTHING: Seen := Seen(false, [], [], 0)

  function AfterDigits(d: Text): (r: Text)
    ensures |r| <= |d| && (IsDigit(Head(d)) ==> |r| < |d|)
  {
    if IsDigit(Head(d)) then AfterDigits(d[1..]) else d
  }

  /** The integer that digits spell, exactly. */
  function Spelt(acc: nat, d: Text): nat
    decreases |d|
  {
    if IsDigit(Head(d)) then Spelt(10 * acc + (d[0] - 48), d[1..]) else acc
  }

  function AfterWhole(d: Text): (r: Option<Text>)
    ensures r.Some? ==> |r.value| < |d|
  {
    if Head(d) == 48 then Some(d[1..])
    else if IsDigit(Head(d)) then Some(AfterDigits(d))
    else None
  }

  function AfterFraction(d: Text): (r: Option<Text>)
    ensures r.Some? ==> |r.value| <= |d|
  {
    if Head(d) != DOT then Some(d)
    else if IsDigit(Head(d[1..])) then Some(AfterDigits(d[1..]))
    else None
  }

  /** The digits of an exponent, behind its sign. */
  function Unsigned(d: Text): (r: Text)
    requires d != []
    ensures |r| < |d|
  {
    var sign := Head(d[1..]);
    if sign == MINUS || sign == PLUS then d[2..] else d[1..]
  }

  function ScanExponent(d: Text): (r: Seen)
    ensures r.ok ==> |r.rest| <= |d|
  {
    if !IsExponent(Head(d)) then Seen(true, d, [], 0)
    else if IsDigit(Head(Unsigned(d))) then Seen(true, AfterDigits(Unsigned(d)), [Spelt(0, Unsigned(d))], 0)
    else NOTHING
  }

  function ScanNumber(d: Text): (r: Seen)
    ensures r.ok ==> |r.rest| < |d|
  {
    match AfterWhole(if Head(d) == MINUS then d[1..] else d)
    case None => NOTHING
    case Some(d1) =>
      match AfterFraction(d1)
      case None => NOTHING
      case Some(d2) => ScanExponent(d2)
  }

  /** The raw tabs of a string, given that it is closed. */
  function Tabs(d: Text): nat
    requires Extract(d).Some?
    decreases |d|
  {
    if d[0] == BACKSLASH then Tabs(Unescape(d[1..]).value.1)
    else if d[0] == QUOTE then 0
    else (if d[0] == 9 then 1 else 0) + Tabs(d[1..])
  }

  /** In the strict grammar a departure is a failure. */
  function ScanString(d: Text, strict: bool): (r: Seen)
    ensures r.ok ==> |r.rest| < |d|
  {
    match Extract(d)
    case None => NOTHING
    case Some(p) => if strict && Tabs(d) > 0 then NOTHING else Seen(true, p.1, [], Tabs(d))
  }

  function ScanWord(d: Text, word: Text, strict: bool): (r: Seen)
    requires |word| <= |d| && word != []
    ensures r.ok ==> |r.rest| < |d|
  {
    var exact := d[..|word|] == word;
    if strict && !exact then NOTHING else Seen(true, d[|word|..], [], if exact then 0 else 1)
  }

  function ScanValue(d: Text, strict: bool): (r: Seen)
    ensures r.ok ==> |r.rest| < |d|
    decreases |d|, 0
  {
    var c := Head(d);
    if c == QUOTE then ScanString(d[1..], strict)
    else if Starts(d, TRUE) then ScanWord(d, TRUE, strict)
    else if Starts(d, FALSE) then ScanWord(d, FALSE, strict)
    else if Starts(d, NULL) then ScanWord(d, NULL, strict)
    else if c == MINUS || IsDigit(c) then ScanNumber(d)
    else if c == OPEN_BRACE then ScanMembers(d[1..], true, strict)
    else if c == OPEN_BRACKET then ScanItems(d[1..], true, strict)
    else NOTHING
  }

  /** One thing after another: the first one's exponents and departures count as well. */
  function Then(s: Seen, t: Seen): Seen {
    Seen(t.ok, t.rest, s.exps + t.exps, s.quirks + t.quirks)
  }

  function ScanItems(d: Text, first: bool, strict: bool): (r: Seen)
    ensures r.ok ==> |r.rest| < |d|
    decreases |d|, 1
  {
    var d1 := Skip(d);
    if Head(d1) == 0 then NOTHING
    else if first && Head(d1) == CLOSE_BRACKET then Seen(true, d1[1..], [], 0)
    else
      var s := ScanValue(d1, strict);
      if !s.ok then s
      else
        var d3 := Skip(s.rest);
        if Head(d3) == CLOSE_BRACKET then s.(rest := d3[1..])
        else if Head(d3) == COMMA then Then(s, ScanItems(d3[1..], false, strict))
        else s.(ok := false)
  }

  function ScanName(d: Text, strict: bool): (r: Seen)
    requires d != []
    ensures r.ok ==> |r.rest| < |d|
  {
    var s := ScanString(d[1..], strict);
    if !s.ok || (strict && d[0] != QUOTE) then NOTHING
    else
      var d2 := Skip(s.rest);
      if Head(d2) == COLON then Seen(true, d2[1..], [], s.quirks + (if d[0] == QUOTE then 0 else 1)) else NOTHING
  }

  function ScanMembers(d: Text, first: bool, strict: bool): (r: Seen)
    ensures r.ok ==> |r.rest| < |d|
    decreases |d|, 1
  {
    var d1 := Skip(d);
    if Head(d1) == 0 then NOTHING
    else if first && Head(d1) == CLOSE_BRACE then Seen(true, d1[1..], [], 0)
    else
      var n := ScanName(d1, strict);
      if !n.ok then NOTHING
      else
        var v := Then(n, ScanValue(Skip(n.rest), strict));
        if !v.ok then v
        else
          var d5 := Skip(v.rest);
          if Head(d5) == CLOSE_BRACE then v.(rest := d5[1..])
          else if Head(d5) == COMMA then Then(v, ScanMembers(d5[1..], false, strict))
          else v.(ok := false)
  }

  /** A document with nothing but white space around its value. */
  predicate Document(d: Text, strict: bool) {
    var s := ScanValue(Skip(d), strict);
    s.ok && Head(Skip(s.rest)) == 0
  }

  // ----- the parser and the scanner

  predicate TooBig(exps: seq<nat>) {
    exists e :: e in exps && e > LIMIT + 1
  }

  lemma TooBigThen(a: seq<nat>, b: seq<nat>)
    ensures TooBig(a + b) <==> TooBig(a) || TooBig(b)
  {
    assert forall e :: e in a + b <==> e in a || e in b;
  }

  /** What the parser does is what the scanner has seen. */
  ghost predicate Agree<T>(r: Outcome<T>, s: Seen) {
    if TooBig(s.exps) then r.Hang?
    else if s.ok then r.Done? && r.rest == s.rest
    else r.Fail?
  }

  lemma {:induction false} IntAgrees(v: nat, x: nat, d: Text)
    requires Holds(v, x)
    ensures Holds(Spelt(v, d), IntFrom(x, d).0) && IntFrom(x, d).1 == AfterDigits(d)
    decreases |d|
  {
    hide Holds, Accumulate;
    if IsDigit(Head(d)) {
      AccumulateHolds(v, x, d[0] - 48);
      IntAgrees(10 * v + (d[0] - 48), Accumulate(x, d[0] - 48), d[1..]);
    }
  }

  lemma {:induction false} DecimalAgrees(acc: real, factor: real, d: Text)
    ensures DecimalFrom(acc, factor, d).1 == AfterDigits(d)
    decreases |d|
  {
    hide DecimalFrom, Place, Tenth;
    if IsDigit(Head(d)) {
      DecimalStep(acc, factor, d);
      DecimalAgrees(acc + Place(d[0] - 48, factor), Tenth(factor), d[1..]);
    } else {
      DecimalStops(acc, factor, d);
    }
  }

  lemma WholeAgrees(d: Text)
    ensures AfterWhole(d) == match WholePart(d) case Done(_, rest) => Some(rest) case _ => None
  {
    IntAgrees(0, 0, d);
    hide IntFrom, AfterDigits;
  }

  lemma FractionAgrees(x: real, d: Text)
    ensures AfterFraction(d) == match FractionPart(x, d) case Done(_, rest) => Some(rest) case _ => None
  {
    if Head(d) == DOT { DecimalAgrees(0.0, 0.1, d[1..]); }
    hide DecimalFrom, AfterDigits;
  }

  lemma TooBigOne(e: nat)
    ensures TooBig([e]) <==> e > LIMIT + 1
  {
    assert e in [e];
  }

  /** What the loop's bound is read as decides whether the loop ends. */
  lemma BoundAgrees(e: Text)
    ensures LoopEnds(IntFrom(0, e).0) <==> Spelt(0, e) <= LIMIT + 1
    ensures IntFrom(0, e).1 == AfterDigits(e)
  {
    hide IntFrom, AfterDigits, Spelt, LoopEnds;
    IntAgrees(0, 0, e);
    LoopEndsIff(IntFrom(0, e).0);
  }

  /** The exponent loop does not end exactly for exponents above 2^53 + 1: the next
      integer after 2^53 is rounded down to it when it is read. */
  lemma ExponentAgrees(x: real, d: Text)
    ensures Agree(ExponentPart(x, d), ScanExponent(d))
  {
    hide IntFrom, AfterDigits, Spelt, Scale, LoopEnds, TooBig;
    NoneTooBig();
    if IsExponent(Head(d)) && IsDigit(Head(Unsigned(d))) {
      BoundAgrees(Unsigned(d));
      TooBigOne(Spelt(0, Unsigned(d)));
    }
  }

  lemma NumberAgrees(d: Text)
    ensures Agree(Number(d), ScanNumber(d))
  {
    hide WholePart, FractionPart, ExponentPart, ScanExponent, AfterWhole, AfterFraction, TooBig;
    NoneTooBig();
    var d0 := if Head(d) == MINUS then d[1..] else d;
    WholeAgrees(d0);
    if WholePart(d0).Done? {
      var w := WholePart(d0);
      FractionAgrees(w.value, w.rest);
      if FractionPart(w.value, w.rest).Done? {
        var f := FractionPart(w.value, w.rest);
        ExponentAgrees(f.value, f.rest);
      }
    }
  }

  lemma NoneTooBig()
    ensures !TooBig([])
  {
  }

  lemma {:induction false} ValueAgrees(d: Text)
    ensures Agree(ParseValue(d), ScanValue(d, false))
    decreases |d|, 0
  {
    hide Extract, Tabs, Number, ScanNumber, ParseItems, ParseMembers, ScanItems, ScanMembers, TooBig, Starts;
    NoneTooBig();
    WordsFit(d);
    var c := Head(d);
    if c == QUOTE || Starts(d, TRUE) || Starts(d, FALSE) || Starts(d, NULL) {
    } else if c == MINUS || IsDigit(c) {
      NumberAgrees(d);
    } else if c == OPEN_BRACE {
      MembersAgree(d[1..], []);
    } else if c == OPEN_BRACKET {
      ItemsAgree(d[1..], []);
    }
  }

  lemma WordsFit(d: Text)
    ensures Starts(d, TRUE) || Starts(d, NULL) ==> |d| >= 4
    ensures Starts(d, FALSE) ==> |d| >= 5
    ensures |TRUE| == 4 && |NULL| == 4 && |FALSE| == 5
  {
  }

  lemma {:induction false} ItemsAgree(d: Text, acc: seq<Value>)
    ensures Agree(ParseItems(d, acc), ScanItems(d, acc == [], false))
    decreases |d|, 1
  {
    hide ParseValue, ScanValue, Skip, TooBig;
    NoneTooBig();
    var d1 := Skip(d);
    if Head(d1) != 0 && !(acc == [] && Head(d1) == CLOSE_BRACKET) {
      ValueAgrees(d1);
      var s := ScanValue(d1, false);
      var d3 := Skip(s.rest);
      if s.ok && Head(d3) == COMMA {
        TooBigThen(s.exps, ScanItems(d3[1..], false, false).exps);
        if ParseValue(d1).Done? { ItemsAgree(d3[1..], acc + [ParseValue(d1).value]); }
      }
    }
  }

  lemma NameAgrees(d: Text)
    requires d != []
    ensures var s := ScanName(d, false);
            && s.exps == [] && (s.ok <==> ParseName(d).Done?) && (s.ok ==> s.rest == ParseName(d).rest)
  {
    hide Extract, Tabs, Skip;
  }

  lemma {:induction false} MembersAgree(d: Text, acc: seq<Member>)
    ensures Agree(ParseMembers(d, acc), ScanMembers(d, acc == [], false))
    decreases |d|, 1
  {
    hide ParseValue, ParseName, ScanValue, ScanName, Skip, TooBig, Put;
    NoneTooBig();
    var d1 := Skip(d);
    if Head(d1) != 0 && !(acc == [] && Head(d1) == CLOSE_BRACE) {
      NameAgrees(d1);
      var n := ScanName(d1, false);
      if n.ok {
        var d3 := Skip(n.rest);
        MemberAgrees(d, d3, n, acc, ParseName(d1).value);
      }
    }
  }

  /** The rest of a round, from the member's value on. */
  lemma {:induction false} MemberAgrees(d: Text, d3: Text, n: Seen, acc: seq<Member>, name: Text)
    requires |d3| < |d| && n.exps == []
    ensures var v := Then(n, ScanValue(d3, false));
            && Agree(ParseValue(d3), v)
            && (v.ok && Head(Skip(v.rest)) == COMMA ==>
                  var more := Skip(v.rest)[1..];
                  && (TooBig(v.exps) ==> TooBig(Then(v, ScanMembers(more, false, false)).exps))
                  && (ParseValue(d3).Done? ==>
                        Agree(ParseMembers(more, Put(acc, name, ParseValue(d3).value)),
                              Then(v, ScanMembers(more, false, false)))))
    decreases |d|, 0
  {
    hide ParseValue, ParseMembers, ScanValue, ScanMembers, Skip, TooBig, Put;
    ValueAgrees(d3);
    var v := Then(n, ScanValue(d3, false));
    assert [] + ScanValue(d3, false).exps == ScanValue(d3, false).exps;
    if v.ok && Head(Skip(v.rest)) == COMMA {
      var more := Skip(v.rest)[1..];
      TooBigThen(v.exps, ScanMembers(more, false, false).exps);
      if ParseValue(d3).Done? {
        var acc' := Put(acc, name, ParseValue(d3).value);
        PutSome(acc, name, ParseValue(d3).value);
        MembersAgree(more, acc');
      }
    }
  }

  lemma PutSome(ms: seq<Member>, name: Text, value: Value)
    ensures Put(ms, name, value) != []
  {
  }

  /** The parser does not end exactly on the texts in which, outside strings and before
      the first error, an exponent above 2^53 + 1 is written. */
  lemma ParseHangs(d: Text)
    ensures ParseText(d).Hang? <==> exists e :: e in ScanValue(Skip(d), false).exps && e > LIMIT + 1
  {
    hide ParseValue, ScanValue, Skip;
    ValueAgrees(Skip(d));
    if Head(Skip(d)) == 0 { NothingSeen(Skip(d)); }
  }

  lemma NothingSeen(d: Text)
    requires Head(d) == 0
    ensures ScanValue(d, false) == NOTHING && ParseValue(d) == Fail
  {
    if d != [] { assert TRUE[0] == 116 && FALSE[0] == 102 && NULL[0] == 110; }
  }

  /** Apart from these it accepts exactly the documents of the lenient grammar. */
  lemma ParseAccepts(d: Text)
    ensures ParseText(d).Done? <==> Document(d, false) && !TooBig(ScanValue(Skip(d), false).exps)
  {
    hide ParseValue, ScanValue, Skip, TooBig;
    ValueAgrees(Skip(d));
    if Head(Skip(d)) == 0 { NothingSeen(Skip(d)); }
  }

  // ----- the strict grammar

  /** A strict scan is a lenient one without departures. */
  ghost predicate Stricter(a: Seen, b: Seen) {
    && (a.ok <==> b.ok && b.quirks == 0)
    && (a.ok ==> a.rest == b.rest)
  }

  lemma {:induction false} ValueStrict(d: Text)
    ensures Stricter(ScanValue(d, true), ScanValue(d, false))
    decreases |d|, 0
  {
    hide Extract, Tabs, ScanNumber, ScanItems, ScanMembers, Starts;
    WordsFit(d);
    var c := Head(d);
    if c == OPEN_BRACE {
      MembersStrict(d[1..], true);
    } else if c == OPEN_BRACKET {
      ItemsStrict(d[1..], true);
    } else if c == MINUS || IsDigit(c) {
      NumberPlain(d);
    }
  }

  lemma NumberPlain(d: Text)
    ensures ScanNumber(d).quirks == 0
  {
  }

  lemma {:induction false} ItemsStrict(d: Text, first: bool)
    ensures Stricter(ScanItems(d, first, true), ScanItems(d, first, false))
    decreases |d|, 1
  {
    hide ScanValue, Skip;
    var d1 := Skip(d);
    if Head(d1) != 0 && !(first && Head(d1) == CLOSE_BRACKET) {
      ValueStrict(d1);
      var s := ScanValue(d1, false);
      if s.ok && Head(Skip(s.rest)) == COMMA { ItemsStrict(Skip(s.rest)[1..], false); }
    }
  }

  lemma NameStrict(d: Text)
    requires d != []
    ensures Stricter(ScanName(d, true), ScanName(d, false))
  {
    hide Extract, Tabs, Skip;
  }

  lemma {:induction false} MembersStrict(d: Text, first: bool)
    ensures Stricter(ScanMembers(d, first, true), ScanMembers(d, first, false))
    decreases |d|, 1
  {
    hide ScanValue, ScanName, Skip;
    var d1 := Skip(d);
    if Head(d1) != 0 && !(first && Head(d1) == CLOSE_BRACE) {
      NameStrict(d1);
      var n := ScanName(d1, false);
      if n.ok {
        var d3 := Skip(n.rest);
        ValueStrict(d3);
        var v := ScanValue(d3, false);
        if v.ok && Head(Skip(v.rest)) == COMMA { MembersStrict(Skip(v.rest)[1..], false); }
      }
    }
  }

  /** A text is a document of the strict grammar exactly if it is one of the lenient
      grammar and none of the three departures occurs in it. */
  lemma StrictDocuments(d: Text)
    ensures Document(d, true) <==> Document(d, false) && ScanValue(Skip(d), false).quirks == 0
  {
    hide ScanValue, Skip;
    ValueStrict(Skip(d));
  }

  // ----- instances

  /** 1e9007199254740993 is read; on 1e9007199254740994 the parser does not end. */
  lemma ExponentLimit(n: nat)
    ensures ParseText([49, 101] + Digits(n)).Hang? <==> n > LIMIT + 1
    ensures ParseText([49, 101] + Digits(n)).Done? <==> n <= LIMIT + 1
  {
    hide ScanValue, ParseText, Digits, Skip, TooBig;
    var d := [49, 101] + Digits(n);
    ExponentSeen(n);
    ParseHangs(d);
    ParseAccepts(d);
    TooBigOne(n);
    SkipNothing([]);
    assert TooBig([n]) <==> exists e :: e in [n] && e > LIMIT + 1 by { assert n in [n]; }
  }

  lemma SkipNothing(d: Text)
    requires !IsSpace(Head(d))
    ensures Skip(d) == d
  {
  }

  lemma ExponentSeen(n: nat)
    ensures var d := [49, 101] + Digits(n);
            Skip(d) == d && ScanValue(d, false) == Seen(true, [], [n], 0)
  {
    hide Digits, ScanNumber, ScanString, ScanWord, ScanMembers, ScanItems, Starts, Skip;
    var d := [49, 101] + Digits(n);
    OneExponent(Digits(n));
    SpeltDigits(n);
    SkipNothing(d);
    NoWord(d);
  }

  lemma OneExponent(e: Text)
    requires AllDigits(e) && e != []
    ensures ScanNumber([49, 101] + e) == Seen(true, AfterDigits(e), [Spelt(0, e)], 0)
  {
    var d := [49, 101] + e;
    var d1 := [101] + e;
    assert d[1..] == d1 && d1[1..] == e && IsDigit(e[0]);
    assert AfterDigits(d) == AfterDigits(d1) == d1;
    hide AfterDigits, Spelt;
    assert AfterWhole(d) == Some(d1) && AfterFraction(d1) == Some(d1);
    assert Unsigned(d1) == e;
  }

  lemma SpeltDigits(n: nat)
    ensures Spelt(0, Digits(n)) == n && AfterDigits(Digits(n)) == []
  {
    hide Digits;
    FoldDigits(n);
    SpeltFold(0, Digits(n));
  }

  lemma {:induction false} SpeltFold(acc: nat, ds: Text)
    requires AllDigits(ds)
    ensures Spelt(acc, ds) == Fold(acc, ds) && AfterDigits(ds) == []
    decreases |ds|
  {
    if ds != [] { SpeltFold(10 * acc + (ds[0] - 48), ds[1..]); }
  }

  /** A text with one departure and nothing else amiss is accepted all the same. */
  lemma AcceptedAllTheSame(d: Text)
    requires Skip(d) == d && ScanValue(d, false) == Seen(true, [], [], 1)
    ensures ParseText(d).Done? && !Document(d, true)
  {
    hide ScanValue, ParseText, Skip, TooBig;
    NoneTooBig();
    SkipNothing([]);
    ParseAccepts(d);
    StrictDocuments(d);
  }

  /** {x":0} */
  lemma OpeningQuote()
    ensures var d := [123, 120, 34, 58, 48, 125];
            ParseText(d).Done? && !Document(d, true)
  {
    var d: Text := [123, 120, 34, 58, 48, 125];
    hide ScanNumber, ScanString, ScanWord, ScanMembers, ScanItems, Skip, ParseText, Document;
    NoWord(d);
    SkipNothing(d);
    OneMember();
    assert d[1..] == [120, 34, 58, 48, 125];
    AcceptedAllTheSame(d);
  }

  lemma OneMember()
    ensures ScanMembers([120, 34, 58, 48, 125], true, false) == Seen(true, [], [], 1)
  {
    hide ScanName, ScanValue, Skip;
    var d: Text := [120, 34, 58, 48, 125];
    SkipNothing(d);
    SkipNothing([48, 125]);
    SkipNothing([125]);
    UnquotedName();
    JustZero();
    assert [125][1..] == [];
  }

  lemma UnquotedName()
    ensures ScanName([120, 34, 58, 48, 125], false) == Seen(true, [48, 125], [], 1)
  {
    var d: Text := [120, 34, 58, 48, 125];
    var d1: Text := [34, 58, 48, 125];
    var d2: Text := [58, 48, 125];
    assert d[1..] == d1 && d1[1..] == d2 && d2[1..] == [48, 125];
    assert Extract(d1) == Some(([], d2)) && Tabs(d1) == 0;
    SkipNothing(d2);
  }

  lemma JustZero()
    ensures ScanValue([48, 125], false) == Seen(true, [125], [], 0)
  {
    var d: Text := [48, 125];
    hide ScanString, ScanWord, ScanMembers, ScanItems, AfterDigits;
    NoWord(d);
    assert d[1..] == [125];
    assert AfterWhole(d) == AfterFraction([125]) == Some([125]);
  }

  /** TRUE */
  lemma Capitals()
    ensures var d := [84, 82, 85, 69];
            ParseText(d).Done? && !Document(d, true)
  {
    var d: Text := [84, 82, 85, 69];
    hide ParseText, Skip, Document;
    SkipNothing(d);
    assert Starts(d, TRUE) && d[4..] == [];
    assert d[..4][0] != TRUE[0];
    AcceptedAllTheSame(d);
  }

  /** A tab in quotes, as it is. */
  lemma RawTab()
    ensures var d := [34, 9, 34];
            ParseText(d).Done? && !Document(d, true)
  {
    var d: Text := [34, 9, 34];
    var d1: Text := [9, 34];
    hide ParseText, Skip, Document;
    SkipNothing(d);
    assert d[1..] == d1 && d1[1..] == [34] && [34][1..] == [];
    assert Extract([34]) == Some(([], []));
    assert Extract(d1) == Prepend([9], Extract([34])) == Some(([9] + [], []));
    assert Tabs(d1) == 1;
    AcceptedAllTheSame(d);
  }

  /** What stands where a name's opening quote should be makes no difference. */
  lemma AnyOpening(c: Unit, d: Text, acc: seq<Member>)
    requires !IsSpace(c) && c != 0 && (acc == [] ==> c != CLOSE_BRACE)
    ensures ParseMembers([c] + d, acc) == ParseMembers([QUOTE] + d, acc)
  {
    SkipNothing([c] + d);
    SkipNothing([QUOTE] + d);
    assert ([c] + d)[1..] == d == ([QUOTE] + d)[1..];
    hide Skip, Extract, ParseValue, Put;
    assert ParseName([c] + d) == ParseName([QUOTE] + d);
  }
}

/** What holds of every text the parser meets: it only moves forward, and what it
    returns is well-formed. */
module JsonParsed {
  import opened Doubles
  import opened JsonGrammar
  import opened JsonRoundTrip

  // ----- the cursor

  ghost predicate Suffix(r: Text, d: Text) {
    |r| <= |d| && d[|d| - |r|..] == r
  }

  lemma SuffixTransitive(a: Text, b: Text, c: Text)
    requires Suffix(a, b) && Suffix(b, c)
    ensures Suffix(a, c)
  {
    assert c[|c| - |a|..] == c[|c| - |b|..][|b| - |a|..];
  }

  lemma DropSuffix(d: Text, n: nat)
    requires n <= |d|
    ensures Suffix(d[n..], d)
  {
  }

  lemma {:induction false} SkipSuffix(d: Text)
    ensures Suffix(Skip(d), d)
    decreases |d|
  {
    if IsSpace(Head(d)) {
      SkipSuffix(d[1..]);
      hide Suffix;
      DropSuffix(d, 1);
      SuffixTransitive(Skip(d), d[1..], d);
    }
  }

  lemma UnescapeSuffix(d: Text)
    requires Unescape(d).Some?
    ensures Suffix(Unescape(d).value.1, d)
  {
    hide Suffix, HexRun;
    DropSuffix(d, 1);
    if |d| >= 5 { DropSuffix(d, 5); }
  }

  lemma {:induction false} ExtractSuffix(d: Text)
    requires Extract(d).Some?
    ensures Suffix(Extract(d).value.1, d)
    decreases |d|
  {
    var r := Extract(d).value.1;
    hide Suffix, Unescape;
    DropSuffix(d, 1);
    if d[0] == BACKSLASH {
      var p := Unescape(d[1..]).value;
      UnescapeSuffix(d[1..]);
      ExtractSuffix(p.1);
      SuffixTransitive(r, p.1, d[1..]);
      SuffixTransitive(r, d[1..], d);
    } else if d[0] != QUOTE {
      ExtractSuffix(d[1..]);
      SuffixTransitive(r, d[1..], d);
    }
  }

  lemma {:induction false} IntSuffix(acc: nat, d: Text)
    ensures Suffix(IntFrom(acc, d).1, d)
    decreases |d|
  {
    if IsDigit(Head(d)) {
      IntSuffix(Accumulate(acc, d[0] - 48), d[1..]);
      hide Suffix;
      DropSuffix(d, 1);
      SuffixTransitive(IntFrom(acc, d).1, d[1..], d);
    }
  }

  lemma {:induction false} DecimalSuffix(acc: real, factor: real, d: Text)
    ensures Suffix(DecimalFrom(acc, factor, d).1, d)
    decreases |d|
  {
    hide DecimalFrom, Place, Tenth, Suffix;
    if IsDigit(Head(d)) {
      DecimalStep(acc, factor, d);
      DecimalSuffix(acc + Place(d[0] - 48, factor), Tenth(factor), d[1..]);
      DropSuffix(d, 1);
      SuffixTransitive(DecimalFrom(acc, factor, d).1, d[1..], d);
    } else {
      DecimalStops(acc, factor, d);
      DropSuffix(d, 0);
      assert d[0..] == d;
    }
  }

  /** An exponent is written here that the source's loop cannot count to. */
  ghost predicate HangsHere(d: Text) {
    d != [] && IsExponent(d[0]) &&
    var e := if Head(d[1..]) == MINUS || Head(d[1..]) == PLUS then d[2..] else d[1..];
    !LoopEnds(IntFrom(0, e).0)
  }

  ghost predicate HangsSomewhere(d: Text) {
    exists t :: Suffix(t, d) && HangsHere(t)
  }

  lemma HangsInside(t: Text, d: Text)
    requires Suffix(t, d) && HangsSomewhere(t)
    ensures HangsSomewhere(d)
  {
    hide Suffix, HangsHere;
    var u :| Suffix(u, t) && HangsHere(u);
    SuffixTransitive(u, t, d);
  }

  lemma WholeSuffix(d: Text)
    requires WholePart(d).Done?
    ensures Suffix(WholePart(d).rest, d)
  {
    IntSuffix(0, d);
    hide Suffix, IntFrom;
    if Head(d) == 48 { DropSuffix(d, 1); }
  }

  lemma FractionSuffix(x: real, d: Text)
    requires FractionPart(x, d).Done?
    ensures Suffix(FractionPart(x, d).rest, d)
  {
    if Head(d) == DOT {
      DecimalSuffix(0.0, 0.1, d[1..]);
      hide Suffix, DecimalFrom;
      DropSuffix(d, 1);
      SuffixTransitive(FractionPart(x, d).rest, d[1..], d);
    }
  }

  lemma ExponentSuffix(x: real, d: Text)
    ensures match ExponentPart(x, d) case Done(_, rest) => Suffix(rest, d) case Hang => HangsHere(d) case Fail => true
  {
    hide Scale, IntFrom, Suffix;
    DropSuffix(d, 0);
    assert d[0..] == d;
    if IsExponent(Head(d)) {
      var signed := Head(d[1..]) == MINUS || Head(d[1..]) == PLUS;
      var e := if signed then d[2..] else d[1..];
      if signed { DropSuffix(d, 2); } else { DropSuffix(d, 1); }
      IntSuffix(0, e);
      SuffixTransitive(IntFrom(0, e).1, e, d);
    }
  }

  lemma NumberSuffix(d: Text)
    ensures match Number(d) case Done(_, rest) => Suffix(rest, d) case Hang => HangsSomewhere(d) case Fail => true
  {
    hide Suffix, WholePart, FractionPart, ExponentPart, HangsHere;
    var neg := Head(d) == MINUS;
    var d0 := if neg then d[1..] else d;
    if neg { DropSuffix(d, 1); } else { DropSuffix(d, 0); assert d[0..] == d; }
    if WholePart(d0).Done? {
      var d1 := WholePart(d0).rest;
      WholeSuffix(d0);
      SuffixTransitive(d1, d0, d);
      if FractionPart(WholePart(d0).value, d1).Done? {
        var f := FractionPart(WholePart(d0).value, d1);
        FractionSuffix(WholePart(d0).value, d1);
        SuffixTransitive(f.rest, d1, d);
        ExponentSuffix(f.value, f.rest);
        if ExponentPart(f.value, f.rest).Done? {
          SuffixTransitive(ExponentPart(f.value, f.rest).rest, f.rest, d);
        }
      }
    }
  }

  /** What a value's parse leaves, or why it does not end. */
  ghost predicate Forward<T>(r: Outcome<T>, d: Text) {
    match r
    case Done(_, rest) => Suffix(rest, d)
    case Hang => HangsSomewhere(d)
    case Fail => true
  }

  lemma ForwardFrom<T>(r: Outcome<T>, t: Text, d: Text)
    requires Forward(r, t) && Suffix(t, d)
    ensures Forward(r, d)
  {
    hide Suffix, HangsSomewhere;
    match r
    case Done(_, rest) => SuffixTransitive(rest, t, d);
    case Hang => HangsInside(t, d);
    case Fail =>
  }

  lemma {:induction false} ValueForward(d: Text)
    ensures Forward(ParseValue(d), d)
    decreases |d|, 0
  {
    hide Suffix, HangsSomewhere, Extract, Number, ParseItems, ParseMembers;
    if d != [] { DropSuffix(d, 1); }
    if |d| >= 4 { DropSuffix(d, 4); }
    if |d| >= 5 { DropSuffix(d, 5); }
    var c := Head(d);
    if c == QUOTE {
      if Extract(d[1..]).Some? {
        ExtractSuffix(d[1..]);
        SuffixTransitive(Extract(d[1..]).value.1, d[1..], d);
      }
    } else if c == MINUS || IsDigit(c) {
      NumberSuffix(d);
    } else if c == OPEN_BRACE {
      MembersForward(d[1..], []);
      ForwardFrom(ParseMembers(d[1..], []), d[1..], d);
    } else if c == OPEN_BRACKET {
      ItemsForward(d[1..], []);
      ForwardFrom(ParseItems(d[1..], []), d[1..], d);
    }
  }

  lemma {:induction false} ItemsForward(d: Text, acc: seq<Value>)
    ensures Forward(ParseItems(d, acc), d)
    decreases |d|, 1
  {
    hide Suffix, HangsSomewhere, ParseValue, Skip;
    var d1 := Skip(d);
    SkipSuffix(d);
    if Head(d1) != 0 {
      DropSuffix(d1, 1);
      SuffixTransitive(d1[1..], d1, d);
      ValueForward(d1);
      ForwardFrom(ParseValue(d1), d1, d);
      if ParseValue(d1).Done? {
        var d2 := ParseValue(d1).rest;
        var d3 := Skip(d2);
        SkipSuffix(d2);
        SuffixTransitive(d3, d2, d);
        if d3 != [] {
          DropSuffix(d3, 1);
          SuffixTransitive(d3[1..], d3, d);
          ItemsForward(d3[1..], acc + [ParseValue(d1).value]);
          ForwardFrom(ParseItems(d3[1..], acc + [ParseValue(d1).value]), d3[1..], d);
        }
      }
    }
  }

  lemma NameSuffix(d: Text)
    requires d != [] && ParseName(d).Done?
    ensures Suffix(ParseName(d).rest, d)
  {
    hide Suffix, Extract, Skip;
    var p := Extract(d[1..]).value;
    DropSuffix(d, 1);
    ExtractSuffix(d[1..]);
    SuffixTransitive(p.1, d[1..], d);
    SkipSuffix(p.1);
    SuffixTransitive(Skip(p.1), p.1, d);
    DropSuffix(Skip(p.1), 1);
    SuffixTransitive(Skip(p.1)[1..], Skip(p.1), d);
  }

  lemma {:induction false} MembersForward(d: Text, acc: seq<Member>)
    ensures Forward(ParseMembers(d, acc), d)
    decreases |d|, 1
  {
    hide Suffix, HangsSomewhere, ParseValue, ParseName, Skip, Put;
    var d1 := Skip(d);
    SkipSuffix(d);
    if Head(d1) != 0 {
      DropSuffix(d1, 1);
      SuffixTransitive(d1[1..], d1, d);
      if ParseName(d1).Done? {
        var d3 := Skip(ParseName(d1).rest);
        NameSuffix(d1);
        SuffixTransitive(ParseName(d1).rest, d1, d);
        SkipSuffix(ParseName(d1).rest);
        SuffixTransitive(d3, ParseName(d1).rest, d);
        MemberForward(d, d3, acc, ParseName(d1).value);
      }
    }
  }

  /** The rest of a round, from the member's value on. */
  lemma {:induction false} MemberForward(d: Text, d3: Text, acc: seq<Member>, name: Text)
    requires Suffix(d3, d) && |d3| < |d|
    ensures Forward(ParseValue(d3), d)
    ensures ParseValue(d3).Done? ==>
              var d5 := Skip(ParseValue(d3).rest);
              && Suffix(d5, d)
              && (d5 != [] ==>
                    && Suffix(d5[1..], d)
                    && Forward(ParseMembers(d5[1..], Put(acc, name, ParseValue(d3).value)), d))
    decreases |d|, 0
  {
    hide Suffix, HangsSomewhere, ParseValue, ParseMembers, Skip, Put;
    ValueForward(d3);
    ForwardFrom(ParseValue(d3), d3, d);
    if ParseValue(d3).Done? {
      var d4 := ParseValue(d3).rest;
      var d5 := Skip(d4);
      SkipSuffix(d4);
      SuffixTransitive(d5, d4, d);
      if d5 != [] {
        var acc' := Put(acc, name, ParseValue(d3).value);
        DropSuffix(d5, 1);
        SuffixTransitive(d5[1..], d5, d);
        MembersForward(d5[1..], acc');
        ForwardFrom(ParseMembers(d5[1..], acc'), d5[1..], d);
      }
    }
  }

  // ----- the values

  ghost predicate WellFormed(v: Value)
    decreases v
  {
    match v
    case Str(s) => NonNegative(s)
    case Arr(items) => forall i :: 0 <= i < |items| ==> WellFormed(items[i])
    case Obj(ms) => Sorted(ms) && forall i :: 0 <= i < |ms| ==> NonNegative(ms[i].name) && WellFormed(ms[i].value)
    case _ => true
  }

  lemma {:induction false} ExtractNonNegative(d: Text)
    requires Extract(d).Some?
    ensures NonNegative(Extract(d).value.0)
    decreases |d|
  {
    hide Unescape;
    if d[0] == BACKSLASH {
      UnescapeNonNegative(d[1..]);
      ExtractNonNegative(Unescape(d[1..]).value.1);
    } else if d[0] != QUOTE {
      ExtractNonNegative(d[1..]);
    }
  }

  lemma UnescapeNonNegative(d: Text)
    requires Unescape(d).Some?
    ensures Unescape(d).value.0 >= 0
  {
  }

  lemma {:induction false} ValueWellFormed(d: Text)
    requires ParseValue(d).Done?
    ensures WellFormed(ParseValue(d).value)
    decreases |d|, 0
  {
    var c := Head(d);
    hide Number, Extract, ParseItems, ParseMembers;
    if c == QUOTE {
      ExtractNonNegative(d[1..]);
    } else if c == OPEN_BRACE {
      NoWord(d);
      MembersWellFormed(d[1..], []);
    } else if c == OPEN_BRACKET {
      NoWord(d);
      ItemsWellFormed(d[1..], []);
    }
  }

  lemma {:induction false} ItemsWellFormed(d: Text, acc: seq<Value>)
    requires ParseItems(d, acc).Done? && WellFormed(Arr(acc))
    ensures WellFormed(ParseItems(d, acc).value)
    decreases |d|, 1
  {
    hide ParseValue, Skip;
    var d1 := Skip(d);
    if acc != [] || Head(d1) != CLOSE_BRACKET {
      var v, d3 := ParseValue(d1).value, Skip(ParseValue(d1).rest);
      ValueWellFormed(d1);
      assert WellFormed(Arr(acc + [v]));
      if Head(d3) == COMMA { ItemsWellFormed(d3[1..], acc + [v]); }
    }
  }

  lemma PutWellFormed(ms: seq<Member>, name: Text, v: Value)
    requires WellFormed(Obj(ms)) && NonNegative(name) && WellFormed(v)
    ensures WellFormed(Obj(Put(ms, name, v)))
  {
    PutSorted(ms, name, v);
    PutNames(ms, name, v);
    hide Put, Sorted, NonNegative;
    var r := Put(ms, name, v);
    forall i | 0 <= i < |r| ensures NonNegative(r[i].name) && WellFormed(r[i].value) {
      assert r[i] in r;
    }
  }

  lemma {:induction false} MembersWellFormed(d: Text, acc: seq<Member>)
    requires ParseMembers(d, acc).Done? && WellFormed(Obj(acc))
    ensures WellFormed(ParseMembers(d, acc).value)
    decreases |d|, 1
  {
    hide ParseValue, Skip, Put, Extract, WellFormed, NonNegative;
    var d1 := Skip(d);
    if acc == [] && Head(d1) == CLOSE_BRACE {
      assert acc == [];
    } else {
      var name, d3 := ParseName(d1).value, Skip(ParseName(d1).rest);
      ExtractNonNegative(d1[1..]);
      ValueWellFormed(d3);
      var v, d5 := ParseValue(d3).value, Skip(ParseValue(d3).rest);
      PutWellFormed(acc, name, v);
      if Head(d5) == COMMA { MembersWellFormed(d5[1..], Put(acc, name, v)); }
    }
  }

  /** Every number in it prints as an integer. */
  ghost predicate SmallInts(v: Value)
    decreases v
  {
    match v
    case Num(n) => IsSmallInt(n)
    case Arr(items) => forall i :: 0 <= i < |items| ==> SmallInts(items[i])
    case Obj(ms) => forall i :: 0 <= i < |ms| ==> SmallInts(ms[i].value)
    case _ => true
  }

  lemma {:induction false} WellFormedPrintable(v: Value)
    requires WellFormed(v) && SmallInts(v)
    ensures Printable(v)
    decreases v, 0
  {
    match v
    case Arr(items) => ItemsPrintable(items);
    case Obj(ms) => MembersPrintable(ms);
    case _ =>
  }

  lemma {:induction false} ItemsPrintable(items: seq<Value>)
    requires forall i :: 0 <= i < |items| ==> WellFormed(items[i]) && SmallInts(items[i])
    ensures PrintableItems(items)
    decreases items, 0
  {
    if items != [] {
      WellFormedPrintable(items[0]);
      ItemsPrintable(items[1..]);
    }
  }

  lemma {:induction false} MembersPrintable(ms: seq<Member>)
    requires forall i :: 0 <= i < |ms| ==> NonNegative(ms[i].name) && WellFormed(ms[i].value) && SmallInts(ms[i].value)
    ensures PrintableMembers(ms)
    decreases ms, 0
  {
    hide NonNegative;
    if ms != [] {
      WellFormedPrintable(ms[0].value);
      MembersPrintable(ms[1..]);
    }
  }

  /** Whatever text a value was read from, its printed form is read back as the same
      value, as long as its numbers print as integers. */
  lemma Reparse(d: Text, fmt: real -> Text)
    requires ParseText(d).Done? && SmallInts(ParseText(d).value)
    ensures ParseText(Print(ParseText(d).value, fmt)) == Done(ParseText(d).value, [])
  {
    ValueWellFormed(Skip(d));
    hide ParseValue, Skip, WellFormed, SmallInts, Printable;
    WellFormedPrintable(ParseText(d).value);
    hide ParseText;
    RoundTrip(ParseText(d).value, fmt);
  }
}

/** What is read does not depend on what comes behind it, so no part of a document that
    is cut off is taken for a whole one. */
module JsonTruncated {
  import opened Doubles
  import opened JsonGrammar
  import opened JsonRoundTrip

  lemma {:induction false} SkipMore(d: Text, b: Text)
    requires Skip(d) != []
    ensures Skip(d + b) == Skip(d) + b
    decreases |d|
  {
    if IsSpace(Head(d)) {
      assert (d + b)[1..] == d[1..] + b;
      SkipMore(d[1..], b);
    }
  }

  lemma {:induction false} HexRunMore(d: Text, n: nat, acc: nat, b: Text)
    requires n <= |d|
    ensures HexRun(d + b, n, acc) == HexRun(d, n, acc)
    decreases n
  {
    if n > 0 && HexValue(d[0]).Some? {
      assert (d + b)[1..] == d[1..] + b;
      HexRunMore(d[1..], n - 1, 16 * acc + HexValue(d[0]).value, b);
    }
  }

  lemma UnescapeMore(d: Text, b: Text)
    requires Unescape(d).Some?
    ensures Unescape(d + b) == Some((Unescape(d).value.0, Unescape(d).value.1 + b))
  {
    assert (d + b)[1..] == d[1..] + b;
    if d[0] == 117 {
      HexRunMore(d[1..], 4, 0, b);
      assert (d + b)[5..] == d[5..] + b;
      hide HexRun;
      assert HasUnits(d + b, 5);
    }
  }

  lemma {:induction false} ExtractMore(d: Text, b: Text)
    requires Extract(d).Some?
    ensures Extract(d + b) == Some((Extract(d).value.0, Extract(d).value.1 + b))
    decreases |d|
  {
    hide Unescape;
    assert (d + b)[1..] == d[1..] + b;
    if d[0] == BACKSLASH {
      UnescapeMore(d[1..], b);
      ExtractMore(Unescape(d[1..]).value.1, b);
    } else if d[0] != QUOTE {
      ExtractMore(d[1..], b);
    }
  }

  lemma {:induction false} IntMore(acc: nat, d: Text, b: Text)
    requires IntFrom(acc, d).1 != []
    ensures IntFrom(acc, d + b) == (IntFrom(acc, d).0, IntFrom(acc, d).1 + b)
    decreases |d|
  {
    hide Accumulate;
    if IsDigit(Head(d)) {
      assert (d + b)[1..] == d[1..] + b;
      IntMore(Accumulate(acc, d[0] - 48), d[1..], b);
    }
  }

  lemma {:induction false} DecimalMore(acc: real, factor: real, d: Text, b: Text)
    requires DecimalFrom(acc, factor, d).1 != []
    ensures DecimalFrom(acc, factor, d + b) == (DecimalFrom(acc, factor, d).0, DecimalFrom(acc, factor, d).1 + b)
    decreases |d|
  {
    hide DecimalFrom, Place, Tenth;
    if IsDigit(Head(d)) {
      assert (d + b)[1..] == d[1..] + b;
      DecimalStep(acc, factor, d);
      DecimalStep(acc, factor, d + b);
      DecimalMore(acc + Place(d[0] - 48, factor), Tenth(factor), d[1..], b);
    } else {
      DecimalStops(acc, factor, d);
      DecimalStops(acc, factor, d + b);
    }
  }

  lemma WholeMore(d: Text, b: Text)
    requires WholePart(d).Done? && WholePart(d).rest != []
    ensures WholePart(d + b) == Done(WholePart(d).value, WholePart(d).rest + b)
  {
    if d[0] == 48 {
      assert (d + b)[1..] == d[1..] + b;
    } else {
      IntMore(0, d, b);
      hide IntFrom;
    }
  }

  lemma FractionMore(x: real, d: Text, b: Text)
    requires FractionPart(x, d).Done? && FractionPart(x, d).rest != []
    ensures FractionPart(x, d + b) == Done(FractionPart(x, d).value, FractionPart(x, d).rest + b)
  {
    if Head(d) == DOT {
      assert (d + b)[1..] == d[1..] + b;
      DecimalMore(0.0, 0.1, d[1..], b);
    }
    hide DecimalFrom;
  }

  lemma ExponentMore(x: real, d: Text, b: Text)
    requires ExponentPart(x, d).Done? && ExponentPart(x, d).rest != []
    ensures ExponentPart(x, d + b) == Done(ExponentPart(x, d).value, ExponentPart(x, d).rest + b)
  {
    hide Scale, IntFrom;
    if IsExponent(Head(d)) {
      assert (d + b)[1..] == d[1..] + b;
      var signed := Head(d[1..]) == MINUS || Head(d[1..]) == PLUS;
      if signed { assert (d + b)[2..] == d[2..] + b; }
      IntMore(0, if signed then d[2..] else d[1..], b);
    }
  }

  lemma NumberMore(d: Text, b: Text)
    requires Number(d).Done? && Number(d).rest != []
    ensures Number(d + b) == Done(Number(d).value, Number(d).rest + b)
  {
    hide WholePart, FractionPart, ExponentPart;
    var neg := Head(d) == MINUS;
    if neg { assert (d + b)[1..] == d[1..] + b; }
    var d0 := if neg then d[1..] else d;
    WholeMore(d0, b);
    var w := WholePart(d0);
    FractionMore(w.value, w.rest, b);
    var f := FractionPart(w.value, w.rest);
    ExponentMore(f.value, f.rest, b);
  }

  lemma WordMore(d: Text, b: Text)
    requires Starts(d, TRUE) || Starts(d, FALSE) || Starts(d, NULL)
    ensures Starts(d + b, TRUE) == Starts(d, TRUE) && Starts(d + b, FALSE) == Starts(d, FALSE)
    ensures Starts(d + b, NULL) == Starts(d, NULL)
    ensures Starts(d, TRUE) || Starts(d, NULL) ==> |d| >= 4 && (d + b)[4..] == d[4..] + b
    ensures Starts(d, FALSE) ==> |d| >= 5 && (d + b)[5..] == d[5..] + b
  {
    assert TRUE[0] == 116 && FALSE[0] == 102 && NULL[0] == 110;
  }

  /** A value is read the same whatever follows; only a number at the very end could
      have gone on. */
  lemma {:induction false} ValueMore(d: Text, b: Text)
    requires ParseValue(d).Done? && (ParseValue(d).value.Num? ==> ParseValue(d).rest != [])
    ensures ParseValue(d + b) == Done(ParseValue(d).value, ParseValue(d).rest + b)
    decreases |d|, 0
  {
    hide Extract, Number, ParseItems, ParseMembers, Starts;
    assert d != [] && (d + b)[1..] == d[1..] + b && Head(d + b) == Head(d);
    var c := Head(d);
    if c == QUOTE {
      ExtractMore(d[1..], b);
    } else if Starts(d, TRUE) || Starts(d, FALSE) || Starts(d, NULL) {
      WordMore(d, b);
    } else {
      NoWord(d + b);
      if c == OPEN_BRACE {
        MembersMore(d[1..], [], b);
      } else if c == OPEN_BRACKET {
        ItemsMore(d[1..], [], b);
      } else {
        NumberMore(d, b);
      }
    }
  }

  lemma {:induction false} ItemsMore(d: Text, acc: seq<Value>, b: Text)
    requires ParseItems(d, acc).Done?
    ensures ParseItems(d + b, acc) == Done(ParseItems(d, acc).value, ParseItems(d, acc).rest + b)
    decreases |d|, 1
  {
    hide ParseValue, Skip;
    var d1 := Skip(d);
    SkipMore(d, b);
    assert (d1 + b)[1..] == d1[1..] + b;
    if acc != [] || Head(d1) != CLOSE_BRACKET {
      var v, d2 := ParseValue(d1).value, ParseValue(d1).rest;
      var d3 := Skip(d2);
      SkipLonger(d2);
      ValueMore(d1, b);
      SkipMore(d2, b);
      assert (d3 + b)[1..] == d3[1..] + b;
      if Head(d3) == COMMA { ItemsMore(d3[1..], acc + [v], b); }
    }
  }

  lemma SkipLonger(d: Text)
    ensures Skip(d) != [] ==> d != []
  {
  }

  lemma NameMore(d: Text, b: Text)
    requires d != [] && ParseName(d).Done?
    ensures ParseName(d + b) == Done(ParseName(d).value, ParseName(d).rest + b)
  {
    hide Extract, Skip;
    assert (d + b)[1..] == d[1..] + b;
    ExtractMore(d[1..], b);
    var d2 := Skip(Extract(d[1..]).value.1);
    SkipMore(Extract(d[1..]).value.1, b);
    assert (d2 + b)[1..] == d2[1..] + b;
  }

  lemma {:induction false} MembersMore(d: Text, acc: seq<Member>, b: Text)
    requires ParseMembers(d, acc).Done?
    ensures ParseMembers(d + b, acc) == Done(ParseMembers(d, acc).value, ParseMembers(d, acc).rest + b)
    decreases |d|, 1
  {
    hide ParseValue, ParseName, Skip, Put;
    var d1 := Skip(d);
    SkipMore(d, b);
    assert (d1 + b)[1..] == d1[1..] + b;
    if acc != [] || Head(d1) != CLOSE_BRACE {
      NameMore(d1, b);
      var name, d2 := ParseName(d1).value, ParseName(d1).rest;
      var d3 := Skip(d2);
      ValueStarts(d3);
      SkipMore(d2, b);
      var v, d4 := ParseValue(d3).value, ParseValue(d3).rest;
      var d5 := Skip(d4);
      SkipLonger(d4);
      ValueMore(d3, b);
      SkipMore(d4, b);
      assert (d5 + b)[1..] == d5[1..] + b;
      if Head(d5) == COMMA { MembersMore(d5[1..], Put(acc, name, v), b); }
    }
  }

  lemma ValueStarts(d: Text)
    requires ParseValue(d).Done?
    ensures d != []
  {
  }

  /** A text that is a value other than a number has no proper beginning that is one. */
  lemma PrefixFree(d: Text, k: nat)
    requires k < |d| && ParseValue(d).Done? && ParseValue(d).rest == [] && !ParseValue(d).value.Num?
    ensures !ParseValue(d[..k]).Done?
  {
    var p, b := d[..k], d[k..];
    assert d == p + b;
    if ParseValue(p).Done? {
      ValueStarts(p);
      SameKind(d, p);
      ValueMore(p, b);
    }
  }

  lemma NumbersLook(d: Text)
    requires ParseValue(d).Done?
    ensures ParseValue(d).value.Num? <==> Head(d) == MINUS || IsDigit(Head(d))
  {
    hide Extract, Number;
    var c := Head(d);
    if c == MINUS || IsDigit(c) { NoWord(d); }
    else if c == OPEN_BRACE { MembersKind(d[1..], []); }
    else if c == OPEN_BRACKET { ItemsKind(d[1..], []); }
  }

  lemma {:induction false} ItemsKind(d: Text, acc: seq<Value>)
    requires ParseItems(d, acc).Done?
    ensures ParseItems(d, acc).value.Arr?
    decreases |d|
  {
    hide ParseValue, Skip;
    var d1 := Skip(d);
    if acc != [] || Head(d1) != CLOSE_BRACKET {
      var d3 := Skip(ParseValue(d1).rest);
      if Head(d3) == COMMA { ItemsKind(d3[1..], acc + [ParseValue(d1).value]); }
    }
  }

  lemma {:induction false} MembersKind(d: Text, acc: seq<Member>)
    requires ParseMembers(d, acc).Done?
    ensures ParseMembers(d, acc).value.Obj?
    decreases |d|
  {
    hide ParseValue, ParseName, Skip, Put;
    var d1 := Skip(d);
    if acc != [] || Head(d1) != CLOSE_BRACE {
      var d3 := Skip(ParseName(d1).rest);
      var d5 := Skip(ParseValue(d3).rest);
      if Head(d5) == COMMA { MembersKind(d5[1..], Put(acc, ParseName(d1).value, ParseValue(d3).value)); }
    }
  }

  lemma SameKind(d: Text, p: Text)
    requires p != [] && p <= d && ParseValue(d).Done? && ParseValue(p).Done?
    ensures ParseValue(d).value.Num? <==> ParseValue(p).value.Num?
  {
    NumbersLook(d);
    NumbersLook(p);
    hide ParseValue;
  }

  /** A printed document that is cut off is not accepted, unless it was a mere number. */
  lemma TruncationRejected(v: Value, fmt: real -> Text, k: nat)
    requires Printable(v) && !v.Num? && k < |Print(v, fmt)|
    ensures !ParseText(Print(v, fmt)[..k]).Done?
  {
    var t := Print(v, fmt);
    PrintOpens(v, fmt);
    ParsePrinted(v, fmt, []);
    assert t + [] == t;
    hide Print, ParseValue, Printable;
    PrefixFree(t, k);
    if k > 0 { SkipOpens(t[..k]); }
  }
}

/** JSON and JSONValue as the library runs them: loops that move a cursor over the text
    and append to what has been read or written. */
module Json {
  import opened Doubles
  import opened JsonGrammar
  import opened JsonRoundTrip

  method SkipWhitespace(data: Text) returns (more: bool, rest: Text)
    ensures rest == Skip(data) && (more <==> Head(rest) != 0)
  {
    rest := data;
    while Head(rest) != 0 && IsSpace(Head(rest))
      invariant Skip(rest) == Skip(data)
      decreases |rest|
    {
      rest := rest[1..];
    }
    more := Head(rest) != 0;
  }

  // ----- reading strings

  /** The four digits of a \u escape. */
  method ReadHex(data: Text) returns (ok: bool, c: nat)
    requires |data| >= 4
    ensures ok <==> HexRun(data, 4, 0).Some?
    ensures ok ==> HexRun(data, 4, 0) == Some(c)
  {
    c := 0;
    var d := data;
    var i := 0;
    while i < 4
      invariant 0 <= i <= 4 && |d| == |data| - i
      invariant HexRun(data, 4, 0) == HexRun(d, 4 - i, c)
    {
      match HexValue(d[0]) {
        case Some(v) => c := 16 * c + v;
        case None => return false, 0;
      }
      d := d[1..];
      i := i + 1;
    }
    ok := true;
  }

  method ReadEscape(data: Text) returns (ok: bool, c: Unit, rest: Text)
    ensures ok <==> Unescape(data).Some?
    ensures ok ==> Unescape(data) == Some((c, rest))
  {
    hide HexRun;
    var e := Head(data);
    c, rest, ok := e, [], true;
    if e == QUOTE || e == BACKSLASH || e == SLASH {
    } else if e == 98 {
      c := 8;
    } else if e == 102 {
      c := 12;
    } else if e == 110 {
      c := 10;
    } else if e == 114 {
      c := 13;
    } else if e == 116 {
      c := 9;
    } else if e == 117 {
      if !HasUnits(data, 5) {
        return false, 0, [];
      }
      var v;
      ok, v := ReadHex(data[1..]);
      return ok, v, data[5..];
    } else {
      return false, 0, [];
    }
    rest := data[1..];
  }

  lemma PrependParts(a: Text, b: Text, r: Option<(Text, Text)>)
    ensures Prepend([], r) == r && Prepend(a, Prepend(b, r)) == Prepend(a + b, r)
  {
    if r.Some? {
      Assoc(a, b, r.value.0);
      assert [] + r.value.0 == r.value.0;
    }
  }

  lemma PrependEnd(s: Text, rest: Text)
    ensures Prepend(s, Some(([], rest))) == Some((s, rest))
    ensures forall t :: Prepend(t, None) == None
  {
    assert s + [] == s;
  }

  method ExtractString(data: Text) returns (ok: bool, str: Text, rest: Text)
    ensures ok <==> Extract(data).Some?
    ensures ok ==> Extract(data) == Some((str, rest))
  {
    hide Unescape, Prepend;
    str, rest := [], data;
    PrependEnd([], []);
    PrependParts([], [], Extract(data));
    while Head(rest) != 0
      invariant Extract(data) == Prepend(str, Extract(rest))
      decreases |rest|
    {
      var next := rest[0];
      if next == BACKSLASH {
        var good, c, r := ReadEscape(rest[1..]);
        if !good {
          return false, [], [];
        }
        PrependParts(str, [c], Extract(r));
        str, rest := str + [c], r;
      } else if next == QUOTE {
        PrependEnd(str, rest[1..]);
        return true, str, rest[1..];
      } else if next < 32 && next != 9 {
        return false, [], [];
      } else {
        PrependParts(str, [next], Extract(rest[1..]));
        str, rest := str + [next], rest[1..];
      }
    }
    ok := false;
  }

  // ----- reading numbers

  method ParseInt(data: Text) returns (integer: nat, rest: Text)
    ensures (integer, rest) == IntFrom(0, data)
  {
    integer, rest := 0, data;
    while IsDigit(Head(rest))
      invariant IntFrom(integer, rest) == IntFrom(0, data)
      decreases |rest|
    {
      integer, rest := Accumulate(integer, rest[0] - 48), rest[1..];
    }
  }

  method ParseDecimal(data: Text) returns (decimal: real, rest: Text)
    ensures (decimal, rest) == DecimalFrom(0.0, 0.1, data)
  {
    hide DecimalFrom, Place, Tenth;
    decimal, rest := 0.0, data;
    var factor := 0.1;
    while IsDigit(Head(rest))
      invariant DecimalFrom(decimal, factor, rest) == DecimalFrom(0.0, 0.1, data)
      decreases |rest|
    {
      DecimalStep(decimal, factor, rest);
      decimal, factor, rest := decimal + Place(rest[0] - 48, factor), Tenth(factor), rest[1..];
    }
    DecimalStops(decimal, factor, rest);
  }

  /** The exponent loop, with a double for its counter. It may be entered if it ends. */
  method ApplyExponent(number: real, expo: nat, down: bool) returns (x: real)
    requires LoopEnds(expo)
    ensures x == Scale(number, expo, down)
  {
    LoopEndsIff(expo);
    x := number;
    var i := 0;
    while i < expo
      invariant 0 <= i <= expo
      invariant Scale(x, expo - i, down) == Scale(number, expo, down)
    {
      x := if down then x / 10.0 else x * 10.0;
      RoundSmall(i + 1);
      i := Round(i + 1);
    }
  }

  method ParseExponent(number: real, data: Text) returns (r: Outcome<real>)
    ensures r == ExponentPart(number, data)
  {
    hide IntFrom, Scale, LoopEnds;
    if !IsExponent(Head(data)) {
      return Done(number, data);
    }
    var sign := Head(data[1..]);
    var rest := if sign == MINUS || sign == PLUS then data[2..] else data[1..];
    if !IsDigit(Head(rest)) {
      return Fail;
    }
    var expo;
    expo, rest := ParseInt(rest);
    LoopEndsIff(expo);
    if expo > LIMIT {
      // Here the source's loop goes on for ever.
      return Hang;
    }
    var x := ApplyExponent(number, expo, sign == MINUS);
    return Done(x, rest);
  }

  method ParseNumber(data: Text) returns (r: Outcome<real>)
    ensures r == Number(data)
  {
    hide IntFrom, DecimalFrom, ExponentPart;
    var neg := Head(data) == MINUS;
    var rest := if neg then data[1..] else data;
    var number := 0.0;
    ghost var d0 := rest;
    if Head(rest) == 48 {
      rest := rest[1..];
    } else if IsDigit(Head(rest)) {
      var integer;
      integer, rest := ParseInt(rest);
      number := integer as real;
    } else {
      return Fail;
    }
    assert WholePart(d0) == Done(number, rest);
    ghost var whole, d1 := number, rest;
    if Head(rest) == DOT {
      rest := rest[1..];
      if !IsDigit(Head(rest)) {
        return Fail;
      }
      var decimal;
      decimal, rest := ParseDecimal(rest);
      number := number + decimal;
    }
    assert FractionPart(whole, d1) == Done(number, rest);
    hide WholePart, FractionPart;
    var scaled := ParseExponent(number, rest);
    return match scaled
      case Done(x, r) => Done(if neg then x * -1.0 else x, r)
      case other => other;
  }

  // ----- reading values

  /** JSONValue::Parse */
  method Parse(data: Text) returns (r: Outcome<Value>)
    ensures r == ParseValue(data)
    decreases |data|, 0
  {
    hide Extract, Number, ParseItems, ParseMembers, Starts;
    var c := Head(data);
    if c == QUOTE {
      var ok, str, rest := ExtractString(data[1..]);
      r := if ok then Done(Str(str), rest) else Fail;
    } else if Starts(data, TRUE) || Starts(data, FALSE) {
      WordLength(data);
      var value := Starts(data, TRUE);
      r := Done(Bool(value), if value then data[4..] else data[5..]);
    } else if Starts(data, NULL) {
      WordLength(data);
      r := Done(Null, data[4..]);
    } else if c == MINUS || IsDigit(c) {
      var n := ParseNumber(data);
      match n {
        case Done(x, rest) => r := Done(Num(x), rest);
        case Fail => r := Fail;
        case Hang => r := Hang;
      }
    } else if c == OPEN_BRACE {
      r := ParseObject(data[1..]);
    } else if c == OPEN_BRACKET {
      r := ParseArray(data[1..]);
    } else {
      r := Fail;
    }
  }

  lemma WordLength(d: Text)
    ensures Starts(d, TRUE) || Starts(d, NULL) ==> |d| >= 4
    ensures Starts(d, FALSE) ==> |d| >= 5
  {
  }

  /** From behind the opening bracket. */
  method ParseArray(data: Text) returns (r: Outcome<Value>)
    ensures r == ParseItems(data, [])
    decreases |data|, 1
  {
    hide ParseValue, Skip;
    var rest, items, more := data, [], true;
    while Head(rest) != 0
      invariant |rest| <= |data| && ParseItems(rest, items) == ParseItems(data, [])
      decreases |rest|
    {
      more, rest := SkipWhitespace(rest);
      if !more {
        return Fail;
      }
      if items == [] && Head(rest) == CLOSE_BRACKET {
        return Done(Arr([]), rest[1..]);
      }
      var value := Parse(rest);
      if !value.Done? {
        return if value.Hang? then Hang else Fail;
      }
      items := items + [value.value];
      more, rest := SkipWhitespace(value.rest);
      if !more {
        return Fail;
      }
      if Head(rest) == CLOSE_BRACKET {
        return Done(Arr(items), rest[1..]);
      }
      if Head(rest) != COMMA {
        return Fail;
      }
      rest := rest[1..];
    }
    EndSkips(rest);
    r := Fail;
  }

  lemma EndSkips(d: Text)
    requires Head(d) == 0
    ensures Skip(d) == d
  {
  }

  /** From behind the opening brace. */
  method ParseObject(data: Text) returns (r: Outcome<Value>)
    ensures r == ParseMembers(data, [])
    decreases |data|, 1
  {
    hide ParseValue, Extract, Skip, Put;
    var rest, members, more := data, [], true;
    while Head(rest) != 0
      invariant |rest| <= |data| && ParseMembers(rest, members) == ParseMembers(data, [])
      decreases |rest|
    {
      more, rest := SkipWhitespace(rest);
      if !more {
        return Fail;
      }
      if members == [] && Head(rest) == CLOSE_BRACE {
        return Done(Obj([]), rest[1..]);
      }
      var ok, name;
      ok, name, rest := ExtractString(rest[1..]);
      if !ok {
        return Fail;
      }
      more, rest := SkipWhitespace(rest);
      if !more || Head(rest) != COLON {
        return Fail;
      }
      more, rest := SkipWhitespace(rest[1..]);
      if !more {
        NothingHere(rest);
        return Fail;
      }
      var value := Parse(rest);
      if !value.Done? {
        return if value.Hang? then Hang else Fail;
      }
      members := Put(members, name, value.value);
      more, rest := SkipWhitespace(value.rest);
      if !more {
        return Fail;
      }
      if Head(rest) == CLOSE_BRACE {
        return Done(Obj(members), rest[1..]);
      }
      if Head(rest) != COMMA {
        return Fail;
      }
      rest := rest[1..];
    }
    EndSkips(rest);
    r := Fail;
  }

  lemma NothingHere(d: Text)
    requires Head(d) == 0
    ensures ParseValue(d) == Fail
  {
    if d != [] { assert TRUE[0] == 116 && FALSE[0] == 102 && NULL[0] == 110; }
  }

  /** JSON::Parse */
  method ParseDocument(data: Text) returns (r: Outcome<Value>)
    ensures r == ParseText(data)
  {
    hide ParseValue, Skip;
    var more, rest := SkipWhitespace(data);
    if !more {
      return Fail;
    }
    r := Parse(rest);
    if r.Done? {
      more, rest := SkipWhitespace(r.rest);
      r := if more then Fail else Done(r.value, rest);
    }
  }

  // ----- writing

  method StringifyString(str: Text) returns (out: Text)
    ensures out == Quoted(str)
  {
    hide EscapeUnit;
    out := [QUOTE];
    var i := 0;
    while i < |str|
      invariant 0 <= i <= |str|
      invariant out + Escape(str[i..]) == [QUOTE] + Escape(str)
    {
      var piece := StringifyUnit(str[i]);
      assert str[i..][1..] == str[i + 1..];
      assert out + Escape(str[i..]) == out + piece + Escape(str[i + 1..]);
      out := out + piece;
      i := i + 1;
    }
    assert Escape(str[i..]) == [];
    out := out + [QUOTE];
  }

  method StringifyUnit(c: Unit) returns (out: Text)
    ensures out == EscapeUnit(c)
  {
    if c == QUOTE || c == BACKSLASH || c == SLASH {
      out := [BACKSLASH, c];
    } else if c == 8 {
      out := [BACKSLASH, 98];
    } else if c == 12 {
      out := [BACKSLASH, 102];
    } else if c == 10 {
      out := [BACKSLASH, 110];
    } else if c == 13 {
      out := [BACKSLASH, 114];
    } else if c == 9 {
      out := [BACKSLASH, 116];
    } else if c < 32 {
      var hex := StringifyHex(c);
      out := [BACKSLASH, 117] + hex;
    } else {
      out := [c];
    }
  }

  /** Four times the top digit of sixteen bits, shifting the next one up. */
  method StringifyHex(c: Unit) returns (out: Text)
    ensures out == Hex4(c)
  {
    out := [];
    var chr, i := c, 0;
    while i < 4
      invariant 0 <= i <= 4 && chr == Shifted(c, i)
      invariant out == Hex4(c)[..i]
    {
      TopDigit(c, i);
      var value := chr / 4096 % 16;
      out := out + [if value <= 9 then 48 + value else 65 + (value - 10)];
      chr := chr * 16;
      i := i + 1;
    }
  }

  function Shifted(c: Unit, i: nat): Unit {
    if i == 0 then c else Shifted(c, i - 1) * 16
  }

  lemma TopDigit(c: Unit, i: nat)
    requires i < 4
    ensures Hex4(c)[i] == HexDigit(Shifted(c, i) / 4096 % 16)
  {
    assert Shifted(c, 1) == Shifted(c, 0) * 16 == 16 * c;
    assert Shifted(c, 2) == Shifted(c, 1) * 16 == 256 * c;
    assert Shifted(c, 3) == Shifted(c, 2) * 16 == 4096 * c;
    hide Shifted, HexDigit;
    ShiftedUp(c);
  }

  lemma ShiftedUp(c: Unit)
    ensures 16 * c / 4096 == c / 256 && 256 * c / 4096 == c / 16 && 4096 * c / 4096 == c
  {
    assert c == 256 * (c / 256) + c % 256;
    assert c == 16 * (c / 16) + c % 16;
  }

  /** JSONValue::Stringify */
  method Stringify(v: Value, fmt: real -> Text) returns (out: Text)
    ensures out == Print(v, fmt)
    decreases v
  {
    match v {
      case Null => out := NULL;
      case Bool(b) => out := if b then TRUE else FALSE;
      case Num(n) => out := if IsSmallInt(n) then IntText(n.Floor) else fmt(n);
      case Str(s) => out := StringifyString(s);
      case Arr(items) =>
        out := [OPEN_BRACKET];
        var i := 0;
        while i < |items|
          invariant 0 <= i <= |items|
          invariant out + PrintItems(items[i..], fmt) == [OPEN_BRACKET] + PrintItems(items, fmt)
        {
          var item := Stringify(items[i], fmt);
          NextItem(items[i..], fmt, out);
          assert items[i..][1..] == items[i + 1..];
          out := out + item;
          i := i + 1;
          if i < |items| {
            out := out + [COMMA];
          }
        }
        out := out + [CLOSE_BRACKET];
      case Obj(ms) =>
        out := [OPEN_BRACE];
        var i := 0;
        while i < |ms|
          invariant 0 <= i <= |ms|
          invariant out + PrintMembers(ms[i..], fmt) == [OPEN_BRACE] + PrintMembers(ms, fmt)
        {
          var name := StringifyString(ms[i].name);
          var value := Stringify(ms[i].value, fmt);
          NextMember(ms[i..], fmt, out);
          assert ms[i..][1..] == ms[i + 1..];
          out := out + name + [COLON] + value;
          i := i + 1;
          if i < |ms| {
            out := out + [COMMA];
          }
        }
        out := out + [CLOSE_BRACE];
    }
  }

  lemma NextItem(items: seq<Value>, fmt: real -> Text, out: Text)
    requires items != []
    ensures out + PrintItems(items, fmt) ==
            out + Print(items[0], fmt) + (if |items| == 1 then [] else [COMMA]) + PrintItems(items[1..], fmt)
  {
    hide Print;
    var first, more := Print(items[0], fmt), PrintItems(items[1..], fmt);
    if |items| > 1 {
      assert PrintItems(items, fmt) == first + ([COMMA] + more);
      hide PrintItems;
      Assoc(out, first, [COMMA] + more);
      Assoc(out + first, [COMMA], more);
    }
  }

  lemma NextMember(ms: seq<Member>, fmt: real -> Text, out: Text)
    requires ms != []
    ensures out + PrintMembers(ms, fmt) ==
            out + Quoted(ms[0].name) + [COLON] + Print(ms[0].value, fmt)
            + (if |ms| == 1 then [] else [COMMA]) + PrintMembers(ms[1..], fmt)
  {
    hide Print, Quoted;
    var name, first, more := Quoted(ms[0].name), Print(ms[0].value, fmt), PrintMembers(ms[1..], fmt);
    if |ms| > 1 {
      assert PrintMembers(ms, fmt) == name + [COLON] + first + ([COMMA] + more);
      hide PrintMembers;
      Assoc(out, name + [COLON] + first, [COMMA] + more);
      Assoc(out + (name + [COLON] + first), [COMMA], more);
      Assoc(out, name + [COLON], first);
      Assoc(out, name, [COLON]);
    } else {
      assert PrintMembers(ms, fmt) == name + [COLON] + first;
      Assoc(out, name + [COLON], first);
      Assoc(out, name, [COLON]);
    }
  }

  /** What Stringify writes, JSON::Parse reads back. */
  method WriteAndRead(v: Value, fmt: real -> Text) returns (r: Outcome<Value>)
    requires Printable(v)
    ensures r == Done(v, [])
  {
    var text := Stringify(v, fmt);
    r := ParseDocument(text);
    RoundTrip(v, fmt);
  }
}

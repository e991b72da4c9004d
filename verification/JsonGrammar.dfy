/** What the JSON printer writes and what the parser accepts, as functions on
    zero-terminated texts of wide characters. A text stands for what the source's
    `*data` points at: its head is `**data`, and dropping one unit is `(*data)++`. */
module JsonGrammar {
  import opened Doubles

  /** A wchar_t; on the platforms in question it is signed. */
  type Unit = int

  type Text = seq<Unit>

  datatype Member = Member(name: Text, value: Value)

  /** Objects are std::map, listed in the order it is iterated in. */
  datatype Value =
    | Null
    | Bool(b: bool)
    | Num(n: real)
    | Str(s: Text)
    | Arr(items: seq<Value>)
    | Obj(members: seq<Member>)

  datatype Option<T> = None | Some(value: T)

  const QUOTE: Unit := 34
  const SLASH: Unit := 47
  const BACKSLASH: Unit := 92
  const COMMA: Unit := 44
  const COLON: Unit := 58
  const DOT: Unit := 46
  const MINUS: Unit := 45
  const PLUS: Unit := 43
  const OPEN_BRACE: Unit := 123
  const CLOSE_BRACE: Unit := 125
  const OPEN_BRACKET: Unit := 91
  const CLOSE_BRACKET: Unit := 93
  const TRUE: Text := [116, 114, 117, 101]
  const FALSE: Text := [102, 97, 108, 115, 101]
  const NULL: Text := [110, 117, 108, 108]

  function Head(d: Text): Unit {
    if d == [] then 0 else d[0]
  }

  predicate IsDigit(c: Unit) { 48 <= c <= 57 }

  predicate AllDigits(t: Text) { forall i :: 0 <= i < |t| ==> IsDigit(t[i]) }

  predicate IsSpace(c: Unit) { c == 32 || c == 9 || c == 13 || c == 10 }

  predicate IsExponent(c: Unit) { c == 69 || c == 101 }

  function Skip(d: Text): (r: Text)
    ensures |r| <= |d|
  {
    if IsSpace(Head(d)) then Skip(d[1..]) else d
  }

  // ----- strings

  function HexDigit(v: nat): Unit
    requires v < 16
  {
    if v < 10 then 48 + v else 55 + v
  }

  /** The low sixteen bits of `c` in four digits. */
  function Hex4(c: Unit): Text {
    [HexDigit(c / 4096 % 16), HexDigit(c / 256 % 16), HexDigit(c / 16 % 16), HexDigit(c % 16)]
  }

  function EscapeUnit(c: Unit): Text {
    if c == QUOTE || c == BACKSLASH || c == SLASH then [BACKSLASH, c]
    else if c == 8 then [BACKSLASH, 98]
    else if c == 12 then [BACKSLASH, 102]
    else if c == 10 then [BACKSLASH, 110]
    else if c == 13 then [BACKSLASH, 114]
    else if c == 9 then [BACKSLASH, 116]
    else if c < 32 then [BACKSLASH, 117] + Hex4(c)
    else [c]
  }

  function Escape(s: Text): Text {
    if s == [] then [] else EscapeUnit(s[0]) + Escape(s[1..])
  }

  function Quoted(s: Text): Text {
    [QUOTE] + Escape(s) + [QUOTE]
  }

  function HexValue(c: Unit): Option<nat> {
    if 48 <= c <= 57 then Some(c - 48)
    else if 65 <= c <= 70 then Some(c - 55)
    else if 97 <= c <= 102 then Some(c - 87)
    else None
  }

  /** `n` hex digits after `acc`. */
  function HexRun(d: Text, n: nat, acc: nat): Option<nat>
    requires n <= |d|
  {
    if n == 0 then Some(acc)
    else match HexValue(d[0])
      case None => None
      case Some(v) => HexRun(d[1..], n - 1, 16 * acc + v)
  }

  predicate HasUnits(d: Text, n: nat) {
    n <= |d| && forall i :: 0 <= i < n ==> d[i] != 0
  }

  /** What follows a backslash: the unit it stands for and the rest. */
  function Unescape(d: Text): (r: Option<(Unit, Text)>)
    ensures r.Some? ==> |r.value.1| < |d|
  {
    var c := Head(d);
    if c == QUOTE || c == BACKSLASH || c == SLASH then Some((c, d[1..]))
    else if c == 98 then Some((8, d[1..]))
    else if c == 102 then Some((12, d[1..]))
    else if c == 110 then Some((10, d[1..]))
    else if c == 114 then Some((13, d[1..]))
    else if c == 116 then Some((9, d[1..]))
    else if c == 117 && HasUnits(d, 5) then
      match HexRun(d[1..], 4, 0)
      case None => None
      case Some(v) => Some((v, d[5..]))
    else None
  }

  function Prepend(s: Text, r: Option<(Text, Text)>): Option<(Text, Text)> {
    match r
    case None => None
    case Some(p) => Some((s + p.0, p.1))
  }

  /** The characters up to the closing quote, and what follows it. */
  function Extract(d: Text): (r: Option<(Text, Text)>)
    ensures r.Some? ==> |r.value.1| < |d|
    decreases |d|
  {
    var c := Head(d);
    if c == 0 then None
    else if c == BACKSLASH then
      match Unescape(d[1..])
      case None => None
      case Some(p) => Prepend([p.0], Extract(p.1))
    else if c == QUOTE then Some(([], d[1..]))
    else if c < 32 && c != 9 then None
    else Prepend([c], Extract(d[1..]))
  }

  // ----- numbers

  function Digits(n: nat): (t: Text)
    ensures t != [] && (n > 0 ==> t[0] != 48)
    ensures AllDigits(t)
  {
    if n < 10 then [48 + n] else Digits(n / 10) + [48 + n % 10]
  }

  function IntText(n: int): Text {
    if n < 0 then [MINUS] + Digits(-n) else Digits(n)
  }

  const MAGNITUDE: real := 1000000000000000.0

  /** The numbers that print as plain integers at fifteen digits of precision. */
  predicate IsSmallInt(n: real) {
    -MAGNITUDE < n < MAGNITUDE && n == n.Floor as real
  }

  /** JSON::ParseInt, which adds up a double. */
  function IntFrom(acc: nat, d: Text): (r: (nat, Text))
    ensures |r.1| <= |d| && (IsDigit(Head(d)) ==> |r.1| < |d|)
    decreases |d|
  {
    if IsDigit(Head(d)) then IntFrom(Accumulate(acc, d[0] - 48), d[1..]) else (acc, d)
  }

  function Place(digit: nat, factor: real): real {
    digit as real * factor
  }

  function Tenth(factor: real): real { factor * 0.1 }

  function DecimalFrom(acc: real, factor: real, d: Text): (r: (real, Text))
    ensures |r.1| <= |d|
    decreases |d|
  {
    if IsDigit(Head(d)) then DecimalFrom(acc + Place(d[0] - 48, factor), Tenth(factor), d[1..]) else (acc, d)
  }

  function Scale(x: real, times: nat, down: bool): real
    decreases times
  {
    if times == 0 then x else Scale(if down then x / 10.0 else x * 10.0, times - 1, down)
  }

  /** `Hang` is a loop of the source that never reaches its bound. */
  datatype Outcome<T> = Fail | Hang | Done(value: T, rest: Text)

  function WholePart(d: Text): (r: Outcome<real>)
    ensures !r.Hang? && (r.Done? ==> |r.rest| < |d|)
  {
    if Head(d) == 48 then Done(0.0, d[1..])
    else if IsDigit(Head(d)) then
      var p := IntFrom(0, d);
      Done(p.0 as real, p.1)
    else Fail
  }

  function FractionPart(number: real, d: Text): (r: Outcome<real>)
    ensures !r.Hang? && (r.Done? ==> |r.rest| <= |d|)
  {
    if Head(d) != DOT then Done(number, d)
    else if !IsDigit(Head(d[1..])) then Fail
    else
      var p := DecimalFrom(0.0, 0.1, d[1..]);
      Done(number + p.0, p.1)
  }

  ghost function ExponentPart(number: real, d: Text): (r: Outcome<real>)
    ensures r.Done? ==> |r.rest| <= |d|
  {
    if !IsExponent(Head(d)) then Done(number, d)
    else
      var sign := Head(d[1..]);
      var e := if sign == MINUS || sign == PLUS then d[2..] else d[1..];
      if !IsDigit(Head(e)) then Fail
      else
        var p := IntFrom(0, e);
        if LoopEnds(p.0) then Done(Scale(number, p.0, sign == MINUS), p.1) else Hang
  }

  ghost function Number(d: Text): (r: Outcome<real>)
    ensures r.Done? ==> |r.rest| < |d|
  {
    var neg := Head(d) == MINUS;
    match WholePart(if neg then d[1..] else d)
    case Fail => Fail
    case Done(whole, d1) =>
      match FractionPart(whole, d1)
      case Fail => Fail
      case Done(number, d2) =>
        match ExponentPart(number, d2)
        case Fail => Fail
        case Hang => Hang
        case Done(x, d3) => Done(if neg then x * -1.0 else x, d3)
  }

  // ----- std::map

  predicate Less(a: Text, b: Text) {
    if b == [] then false
    else if a == [] then true
    else a[0] < b[0] || (a[0] == b[0] && Less(a[1..], b[1..]))
  }

  /** object[name] = value */
  function Put(ms: seq<Member>, name: Text, value: Value): seq<Member> {
    if ms == [] || Less(name, ms[0].name) then [Member(name, value)] + ms
    else if ms[0].name == name then [Member(name, value)] + ms[1..]
    else [ms[0]] + Put(ms[1..], name, value)
  }

  // ----- values

  function Lower(c: Unit): Unit {
    if 65 <= c <= 90 then c + 32 else c
  }

  /** The text begins with the word, in any case. */
  predicate Starts(d: Text, word: Text) {
    |word| <= |d| && forall i :: 0 <= i < |word| ==> Lower(d[i]) == word[i]
  }

  /** JSONValue::Parse */
  ghost function ParseValue(d: Text): (r: Outcome<Value>)
    ensures r.Done? ==> |r.rest| < |d|
    decreases |d|, 0
  {
    var c := Head(d);
    if c == QUOTE then
      match Extract(d[1..])
      case None => Fail
      case Some(p) => Done(Str(p.0), p.1)
    else if Starts(d, TRUE) then Done(Bool(true), d[4..])
    else if Starts(d, FALSE) then Done(Bool(false), d[5..])
    else if Starts(d, NULL) then Done(Null, d[4..])
    else if c == MINUS || IsDigit(c) then
      match Number(d)
      case Fail => Fail
      case Hang => Hang
      case Done(n, rest) => Done(Num(n), rest)
    else if c == OPEN_BRACE then ParseMembers(d[1..], [])
    else if c == OPEN_BRACKET then ParseItems(d[1..], [])
    else Fail
  }

  /** The array loop, with `acc` read so far. */
  ghost function ParseItems(d: Text, acc: seq<Value>): (r: Outcome<Value>)
    ensures r.Done? ==> |r.rest| < |d|
    decreases |d|, 1
  {
    var d1 := Skip(d);
    if Head(d1) == 0 then Fail
    else if acc == [] && Head(d1) == CLOSE_BRACKET then Done(Arr([]), d1[1..])
    else match ParseValue(d1)
      case Fail => Fail
      case Hang => Hang
      case Done(v, d2) =>
        var d3 := Skip(d2);
        if Head(d3) == CLOSE_BRACKET then Done(Arr(acc + [v]), d3[1..])
        else if Head(d3) == COMMA then ParseItems(d3[1..], acc + [v])
        else Fail
  }

  /** A name and the colon after it. The name's opening quote is skipped unseen. */
  function ParseName(d: Text): (r: Outcome<Text>)
    requires d != []
    ensures !r.Hang? && (r.Done? ==> |r.rest| < |d|)
  {
    match Extract(d[1..])
    case None => Fail
    case Some(p) =>
      var d2 := Skip(p.1);
      if Head(d2) == COLON then Done(p.0, d2[1..]) else Fail
  }

  /** The object loop, with `acc` read so far. */
  ghost function ParseMembers(d: Text, acc: seq<Member>): (r: Outcome<Value>)
    ensures r.Done? ==> |r.rest| < |d|
    decreases |d|, 1
  {
    var d1 := Skip(d);
    if Head(d1) == 0 then Fail
    else if acc == [] && Head(d1) == CLOSE_BRACE then Done(Obj([]), d1[1..])
    else match ParseName(d1)
      case Fail => Fail
      case Done(name, d2) =>
        match ParseValue(Skip(d2))
        case Fail => Fail
        case Hang => Hang
        case Done(v, d4) =>
          var d5 := Skip(d4);
          if Head(d5) == CLOSE_BRACE then Done(Obj(Put(acc, name, v)), d5[1..])
          else if Head(d5) == COMMA then ParseMembers(d5[1..], Put(acc, name, v))
          else Fail
  }

  /** JSON::Parse: one value, with nothing but white space around it. */
  ghost function ParseText(d: Text): Outcome<Value> {
    if Head(Skip(d)) == 0 then Fail
    else match ParseValue(Skip(d))
      case Done(v, rest) => if Head(Skip(rest)) == 0 then Done(v, Skip(rest)) else Fail
      case other => other
  }

  /** JSONValue::Stringify. How the library prints a number that is not a small
      integer is the parameter `fmt`. */
  function Print(v: Value, fmt: real -> Text): Text
    decreases v, 0
  {
    match v
    case Null => NULL
    case Bool(b) => if b then TRUE else FALSE
    case Num(n) => if IsSmallInt(n) then IntText(n.Floor) else fmt(n)
    case Str(s) => Quoted(s)
    case Arr(items) => [OPEN_BRACKET] + PrintItems(items, fmt) + [CLOSE_BRACKET]
    case Obj(ms) => [OPEN_BRACE] + PrintMembers(ms, fmt) + [CLOSE_BRACE]
  }

  function PrintItems(items: seq<Value>, fmt: real -> Text): Text
    decreases items, 0
  {
    if items == [] then []
    else Print(items[0], fmt) + (if |items| == 1 then [] else [COMMA] + PrintItems(items[1..], fmt))
  }

  function PrintMembers(ms: seq<Member>, fmt: real -> Text): Text
    decreases ms, 0
  {
    if ms == [] then []
    else
      Quoted(ms[0].name) + [COLON] + Print(ms[0].value, fmt) +
      (if |ms| == 1 then [] else [COMMA] + PrintMembers(ms[1..], fmt))
  }
}

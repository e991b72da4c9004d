/** The stream format of QuickLZ level 3, independent of how the compressor finds
    matches and of how the decompressor batches its work: an abstract token list,
    what a token list expands to, and how it is laid out in bytes. */
module QuickLzFormat {
  import opened Arithmetic

  type Byte = x: int | 0 <= x < 256

  /** One step of the compressed stream. A match copies `len` bytes starting
      `offset` bytes back; the copy may overlap its own output. */
  datatype Token = Lit(b: Byte) | Match(offset: nat, len: nat)

  const GROUP := 31
  const CWORD_LEN := 4
  const MIN_OFFSET := 3
  const MAX_OFFSET := 131070
  const MAX_MATCH := 255
  // A match starts at least this many bytes before the end ...
  const LAST_MATCH_MARGIN := 11
  // ... and ends at least this many bytes before it.
  const UNCOMPRESSED_END := 4

  // ----- what a token list means

  function CopyBack(out: seq<Byte>, offset: nat, len: nat): (r: seq<Byte>)
    requires 0 < offset <= |out|
    ensures |r| == |out| + len
    ensures out <= r
    ensures forall i :: |out| <= i < |r| ==> r[i] == r[i - offset]
    decreases len
  {
    if len == 0 then out
    else CopyBack(out + [out[|out| - offset]], offset, len - 1)
  }

  /** Periodicity determines the copy: nothing else extends `out` this way. */
  lemma {:induction false} CopyBackUnique(out: seq<Byte>, offset: nat, len: nat, r: seq<Byte>)
    requires 0 < offset <= |out|
    requires |r| == |out| + len && out <= r
    requires forall i :: |out| <= i < |r| ==> r[i] == r[i - offset]
    ensures r == CopyBack(out, offset, len)
    decreases len
  {
    if len > 0 {
      assert r[|out|] == r[|out| - offset] == out[|out| - offset];
      var out' := out + [out[|out| - offset]];
      assert out' <= r;
      CopyBackUnique(out', offset, len - 1, r);
    } else {
      assert r == out;
    }
  }

  function Apply(out: seq<Byte>, t: Token): seq<Byte> {
    match t
    case Lit(b) => out + [b]
    case Match(offset, len) => if 0 < offset <= |out| then CopyBack(out, offset, len) else out
  }

  function Expand(out: seq<Byte>, ts: seq<Token>): seq<Byte>
    decreases |ts|
  {
    if ts == [] then out else Expand(Apply(out, ts[0]), ts[1..])
  }

  function Covered(t: Token): nat {
    match t case Lit(_) => 1 case Match(_, len) => len
  }

  /** What the decompressor may rely on for a token met at output position `pos`. */
  predicate TokenOk(pos: nat, t: Token, size: nat) {
    match t
    case Lit(_) => pos < size
    case Match(offset, len) =>
      && MIN_OFFSET <= offset <= MAX_OFFSET && offset <= pos
      && 3 <= len <= MAX_MATCH
      && pos + LAST_MATCH_MARGIN <= size
      && pos + len + UNCOMPRESSED_END <= size
  }

  /** The tokens take the output from position `pos` to position `end`. */
  predicate Covers(pos: nat, ts: seq<Token>, end: nat, size: nat)
    decreases |ts|
  {
    if ts == [] then pos == end
    else TokenOk(pos, ts[0], size) && Covers(pos + Covered(ts[0]), ts[1..], end, size)
  }

  lemma {:induction false} CoversSnoc(pos: nat, ts: seq<Token>, end: nat, size: nat, t: Token)
    requires Covers(pos, ts, end, size) && TokenOk(end, t, size)
    ensures Covers(pos, ts + [t], end + Covered(t), size)
    decreases |ts|
  {
    if ts != [] {
      assert (ts + [t])[1..] == ts[1..] + [t];
      CoversSnoc(pos + Covered(ts[0]), ts[1..], end, size, t);
    } else {
      assert (ts + [t])[1..] == [];
    }
  }

  lemma {:induction false} ExpandSnoc(out: seq<Byte>, ts: seq<Token>, t: Token)
    ensures Expand(out, ts + [t]) == Apply(Expand(out, ts), t)
    decreases |ts|
  {
    if ts != [] {
      assert (ts + [t])[1..] == ts[1..] + [t];
      ExpandSnoc(Apply(out, ts[0]), ts[1..], t);
    } else {
      assert (ts + [t])[1..] == [];
    }
  }

  lemma {:induction false} ExpandLength(out: seq<Byte>, ts: seq<Token>, end: nat, size: nat)
    requires Covers(|out|, ts, end, size)
    ensures |Expand(out, ts)| == end
    ensures out <= Expand(out, ts)
    decreases |ts|
  {
    if ts != [] {
      ExpandLength(Apply(out, ts[0]), ts[1..], end, size);
    }
  }

  // ----- control words

  function Flag(t: Token): nat { if t.Match? then 1 else 0 }

  /** The flags of a group, first token in the least significant bit. */
  function FlagBits(ts: seq<Token>): (f: nat)
    ensures f < Pow2(|ts|)
  {
    if ts == [] then 0 else Flag(ts[0]) + 2 * FlagBits(ts[1..])
  }

  lemma {:induction false} FlagBitsSnoc(ts: seq<Token>, t: Token)
    ensures FlagBits(ts + [t]) == FlagBits(ts) + Flag(t) * Pow2(|ts|)
    decreases |ts|
  {
    if ts != [] {
      assert (ts + [t])[1..] == ts[1..] + [t];
      FlagBitsSnoc(ts[1..], t);
    } else {
      assert (ts + [t])[1..] == [];
    }
  }

  lemma {:induction false} Pow2Add(a: nat, b: nat)
    ensures Pow2(a + b) == Pow2(a) * Pow2(b)
    decreases a
  {
    if a > 0 { Pow2Add(a - 1, b); }
  }

  lemma Pow2At31()
    ensures Pow2(31) == 0x8000_0000
  {
    assert Pow2(8) == 256;
    Pow2Add(8, 8);
    Pow2Add(16, 8);
    assert Pow2(7) == 128;
    Pow2Add(24, 7);
  }

  // ----- the five match encodings

  /** The value and the number of bytes of the encoding chosen for a match. */
  function MatchCode(offset: nat, len: nat): (nat, nat)
    requires MIN_OFFSET <= offset <= MAX_OFFSET && 3 <= len <= MAX_MATCH
  {
    if len == 3 && offset <= 63 then (offset * 4, 1)
    else if len == 3 && offset <= 16383 then (offset * 4 + 1, 2)
    else if len <= 18 && offset <= 1023 then ((len - 3) * 4 + offset * 64 + 2, 2)
    else if len <= 33 then ((len - 2) * 4 + offset * 128 + 3, 3)
    else ((len - 3) * 128 + offset * 32768 + 3, 4)
  }

  /** Offset, length and encoded size read from the four bytes at the cursor. */
  function DecodeMatch(fetch: nat): (nat, nat, nat) {
    if fetch % 4 == 0 then ((fetch % 256) / 4, 3, 1)
    else if (fetch / 2) % 2 == 0 then ((fetch % 65536) / 4, 3, 2)
    else if fetch % 2 == 0 then ((fetch % 65536) / 64, (fetch / 4) % 16 + 3, 2)
    else if fetch % 128 != 3 then ((fetch / 128) % 131072, (fetch / 4) % 32 + 2, 3)
    else (fetch / 32768, (fetch / 128) % 256 + 3, 4)
  }

  function Pow256(n: nat): nat
    requires n <= 4
  {
    if n == 0 then 1 else if n == 1 then 256 else if n == 2 then 65536
    else if n == 3 then 16777216 else 4294967296
  }

  /** Little-endian bytes of `v`, as fast_write stores them. */
  function Le(v: nat, n: nat): (b: seq<Byte>)
    requires n <= 4
    ensures |b| == n
  {
    [v % 256, v / 256 % 256, v / 65536 % 256, v / 16777216 % 256][..n]
  }

  function FromLe4(s: seq<Byte>): (v: nat)
    requires |s| >= 4
  {
    s[0] as int + s[1] as int * 256 + s[2] as int * 65536 + s[3] as int * 16777216
  }

  lemma Le4RoundTrip(v: nat, s: seq<Byte>)
    requires v < 4294967296 && Le(v, 4) <= s
    ensures FromLe4(s) == v
  {
    LeJunk(v, 4, s);
    DivIs(FromLe4(s), 4294967296, 0, FromLe4(s));
  }

  lemma MatchCodeRange(offset: nat, len: nat)
    requires MIN_OFFSET <= offset <= MAX_OFFSET && 3 <= len <= MAX_MATCH
    ensures 1 <= MatchCode(offset, len).1 <= 4 && MatchCode(offset, len).1 <= len
    ensures MatchCode(offset, len).0 < Pow256(MatchCode(offset, len).1)
  {
  }

  lemma LeJunk(f: nat, n: nat, s: seq<Byte>)
    requires 1 <= n <= 4 && |s| >= 4 && f < Pow256(n)
    requires Le(f, n) <= s
    ensures FromLe4(s) % Pow256(n) == f
  {
    assert forall i :: 0 <= i < n ==> s[i] == Le(f, n)[i];
    LeJunkBytes(f, n, s[0], s[1], s[2], s[3]);
  }

  lemma LeJunkBytes(f: nat, n: nat, b0: int, b1: int, b2: int, b3: int)
    requires 1 <= n <= 4 && f < Pow256(n)
    requires b0 == f % 256
    requires n >= 2 ==> b1 == f / 256 % 256
    requires n >= 3 ==> b2 == f / 65536 % 256
    requires n >= 4 ==> b3 == f / 16777216 % 256
    ensures (b0 + b1 * 256 + b2 * 65536 + b3 * 16777216) % Pow256(n) == f
  {
    var v := b0 + b1 * 256 + b2 * 65536 + b3 * 16777216;
    BytesOf(f);
    if n == 1 {
      DivIs(v, 256, b1 + b2 * 256 + b3 * 65536, f);
    } else if n == 2 {
      DivIs(v, 65536, b2 + b3 * 256, f);
    } else if n == 3 {
      DivIs(v, 16777216, b3, f);
    } else {
      DivIs(v, 4294967296, 0, f);
    }
  }

  lemma BytesOf(f: nat)
    requires f < 4294967296
    ensures f < 256 ==> f == f % 256
    ensures f < 65536 ==> f == f % 256 + 256 * (f / 256 % 256)
    ensures f < 16777216 ==> f == f % 256 + 256 * (f / 256 % 256) + 65536 * (f / 65536 % 256)
    ensures f == f % 256 + 256 * (f / 256 % 256) + 65536 * (f / 65536 % 256) + 16777216 * (f / 16777216 % 256)
  {
    var q1 := f / 256;
    var q2 := q1 / 256;
    var q3 := q2 / 256;
    DivIs(f, 65536, q2, 256 * (q1 % 256) + f % 256);
    DivIs(f, 16777216, q3, 65536 * (q2 % 256) + 256 * (q1 % 256) + f % 256);
  }

  /** Reading four bytes that start with the encoding of a match, whatever
      follows it, gives the match back. */
  lemma MatchCodeRoundTrip(offset: nat, len: nat, s: seq<Byte>)
    requires MIN_OFFSET <= offset <= MAX_OFFSET && 3 <= len <= MAX_MATCH && |s| >= 4
    requires var (f, n) := MatchCode(offset, len); Le(f, n) <= s
    ensures DecodeMatch(FromLe4(s)) == (offset, len, MatchCode(offset, len).1)
  {
    var (f, n) := MatchCode(offset, len);
    MatchCodeRange(offset, len);
    LeJunk(f, n, s);
    DecodeValue(offset, len, FromLe4(s));
  }

  /** The five encodings are told apart by their low bits and undone by their decoders. */
  lemma DecodeValue(offset: nat, len: nat, v: nat)
    requires MIN_OFFSET <= offset <= MAX_OFFSET && 3 <= len <= MAX_MATCH
    requires v < 4294967296
    requires var (f, n) := MatchCode(offset, len); v % Pow256(n) == f
    ensures DecodeMatch(v) == (offset, len, MatchCode(offset, len).1)
  {
    var (f, n) := MatchCode(offset, len);
    if n == 1 { DecodeValue1(offset, v); }
    else if len == 3 && offset <= 16383 { DecodeValue2(offset, v); }
    else if n == 2 { DecodeValue3(offset, len, v); }
    else if n == 3 { DecodeValue4(offset, len, v); }
    else { DecodeValue5(offset, len, v); }
  }

  lemma DecodeValue1(offset: nat, v: nat)
    requires offset <= 63 && v % 256 == offset * 4
    ensures DecodeMatch(v) == (offset, 3, 1)
  {
    DivIs(v, 4, offset + 64 * (v / 256), 0);
  }

  lemma DecodeValue2(offset: nat, v: nat)
    requires offset <= 16383 && v % 65536 == offset * 4 + 1
    ensures DecodeMatch(v) == (offset, 3, 2)
  {
    var k := v / 65536;
    DivIs(v, 4, offset + 16384 * k, 1);
    DivIs(v, 2, 2 * (offset + 16384 * k), 1);
    assert v / 2 % 2 == 0;
    DivIs(v % 65536, 4, offset, 1);
  }

  lemma DecodeValue3(offset: nat, len: nat, v: nat)
    requires 3 <= len <= 18 && offset <= 1023 && v % 65536 == (len - 3) * 4 + offset * 64 + 2
    ensures DecodeMatch(v) == (offset, len, 2)
  {
    var k := v / 65536;
    var q := (len - 3) + 16 * (offset + 1024 * k);
    DivIs(v, 4, q, 2);
    DivIs(v, 2, 2 * q + 1, 0);
    DivIs(q, 16, offset + 1024 * k, len - 3);
    DivIs(v % 65536, 64, offset, (len - 3) * 4 + 2);
  }

  lemma DecodeValue4(offset: nat, len: nat, v: nat)
    requires 3 <= len <= 33 && offset <= MAX_OFFSET && v % 16777216 == (len - 2) * 4 + offset * 128 + 3
    ensures DecodeMatch(v) == (offset, len, 3)
  {
    var k := v / 16777216;
    var q := (len - 2) + 32 * (offset + 131072 * k);
    DivIs(v, 4, q, 3);
    DivIs(v, 2, 2 * q + 1, 1);
    DivIs(q, 32, offset + 131072 * k, len - 2);
    DivIs(v, 128, offset + 131072 * k, (len - 2) * 4 + 3);
    DivIs(v / 128, 131072, k, offset);
  }

  lemma DecodeValue5(offset: nat, len: nat, v: nat)
    requires 33 < len <= MAX_MATCH && offset <= MAX_OFFSET && v == (len - 3) * 128 + offset * 32768 + 3
    ensures DecodeMatch(v) == (offset, len, 4)
  {
    var q := (len - 3) + 256 * offset;
    DivIs(v, 4, 32 * q, 3);
    DivIs(v, 2, 64 * q + 1, 1);
    DivIs(v, 128, q, 3);
    DivIs(v, 32768, offset, (len - 3) * 128 + 3);
    DivIs(q, 256, offset, len - 3);
  }

  // ----- the byte layout

  function Code(t: Token): seq<Byte> {
    match t
    case Lit(b) => [b]
    case Match(offset, len) =>
      if MIN_OFFSET <= offset <= MAX_OFFSET && 3 <= len <= MAX_MATCH
      then Le(MatchCode(offset, len).0, MatchCode(offset, len).1)
      else []
  }

  function Payload(ts: seq<Token>): seq<Byte> {
    if ts == [] then [] else Code(ts[0]) + Payload(ts[1..])
  }

  lemma {:induction false} PayloadSnoc(ts: seq<Token>, t: Token)
    ensures Payload(ts + [t]) == Payload(ts) + Code(t)
    decreases |ts|
  {
    if ts != [] {
      assert (ts + [t])[1..] == ts[1..] + [t];
      PayloadSnoc(ts[1..], t);
    } else {
      assert (ts + [t])[1..] == [];
    }
  }

  /** A control word: up to 31 flags below the sentinel bit. */
  function Word(ts: seq<Token>): nat { FlagBits(ts) + 0x8000_0000 }

  function GroupBytes(ts: seq<Token>): seq<Byte> { Le(Word(ts), 4) + Payload(ts) }

  function Layout(ts: seq<Token>): seq<Byte> {
    if ts == [] then []
    else if |ts| <= GROUP then GroupBytes(ts)
    else GroupBytes(ts[..GROUP]) + Layout(ts[GROUP..])
  }

  /** Whole groups can be laid out on their own. */
  lemma {:induction false} LayoutAppend(full: seq<Token>, rest: seq<Token>)
    requires |full| % GROUP == 0
    ensures Layout(full + rest) == Layout(full) + Layout(rest)
    decreases |full|
  {
    hide GroupBytes;
    if full == [] {
      assert full + rest == rest;
    } else if rest == [] {
      assert full + rest == full;
    } else {
      var g, tail := full[..GROUP], full[GROUP..];
      LayoutAppend(tail, rest);
      LayoutGroup(g, tail);
      LayoutGroup(g, tail + rest);
      assert full == g + tail && full + rest == g + (tail + rest);
    }
  }

  lemma LayoutGroup(g: seq<Token>, tail: seq<Token>)
    requires |g| == GROUP
    ensures Layout(g + tail) == GroupBytes(g) + Layout(tail)
  {
    hide GroupBytes;
    if tail == [] {
      assert g + tail == g;
    } else {
      assert (g + tail)[..GROUP] == g && (g + tail)[GROUP..] == tail;
    }
  }

  lemma WordRange(ts: seq<Token>)
    requires |ts| <= GROUP
    ensures Word(ts) < 4294967296
  {
    Pow2Monotone(|ts|, GROUP);
    Pow2At31();
  }

  /** A stream can be read in one way only: two token lists that take the output
      to the same size and whose layouts start the same bytes are equal. */
  lemma {:induction false} LayoutInjective(pos: nat, ts1: seq<Token>, ts2: seq<Token>, size: nat, s: seq<Byte>)
    requires Covers(pos, ts1, size, size) && Covers(pos, ts2, size, size)
    requires Layout(ts1) <= s && Layout(ts2) <= s
    ensures ts1 == ts2
    decreases |ts1|
  {
    hide Payload, Code, FlagBits;
    if ts1 == [] || ts2 == [] {
      CoversNonempty(pos, ts1, size);
      CoversNonempty(pos, ts2, size);
    } else {
      var g1, r1 := FirstGroup(ts1), ts1[|FirstGroup(ts1)|..];
      var g2, r2 := FirstGroup(ts2), ts2[|FirstGroup(ts2)|..];
      LayoutFirstGroup(ts1);
      LayoutFirstGroup(ts2);
      WordRange(g1);
      WordRange(g2);
      assert Le(Word(g1), 4) <= s && Le(Word(g2), 4) <= s;
      Le4RoundTrip(Word(g1), s);
      Le4RoundTrip(Word(g2), s);
      assert g1 + r1 == ts1 && g2 + r2 == ts2;
      PayloadPrefix(s, g1, r1);
      PayloadPrefix(s, g2, r2);
      GroupInjective(pos, g1, r1, g2, r2, size, s[4..]);
      assert s[4..][|Payload(g1)|..] == s[|GroupBytes(g1)|..];
      LayoutInjective(EndOf(pos, g1), r1, r2, size, s[|GroupBytes(g1)|..]);
    }
  }

  function FirstGroup(ts: seq<Token>): seq<Token> { if |ts| <= GROUP then ts else ts[..GROUP] }

  function EndOf(pos: nat, ts: seq<Token>): nat
    decreases |ts|
  {
    if ts == [] then pos else EndOf(pos + Covered(ts[0]), ts[1..])
  }

  lemma LayoutFirstGroup(ts: seq<Token>)
    requires ts != []
    ensures var g := FirstGroup(ts); Layout(ts) == GroupBytes(g) + Layout(ts[|g|..])
  {
    if |ts| <= GROUP {
      assert ts[|ts|..] == [];
    }
  }

  lemma PayloadPrefix(s: seq<Byte>, g: seq<Token>, r: seq<Token>)
    requires GroupBytes(g) + Layout(r) <= s
    ensures Payload(g) <= s[4..] && Layout(r) <= s[|GroupBytes(g)|..]
  {
    PrefixSplit(GroupBytes(g), Layout(r), s);
    PrefixSplit(Le(Word(g), 4), Payload(g), s);
  }

  lemma CoversNonempty(pos: nat, ts: seq<Token>, size: nat)
    requires Covers(pos, ts, size, size)
    ensures ts == [] <==> pos == size
  {
  }

  /** Inside a group the flags and the encodings determine the tokens. */
  lemma {:induction false} GroupInjective(pos: nat, g1: seq<Token>, r1: seq<Token>, g2: seq<Token>, r2: seq<Token>,
                                          size: nat, s: seq<Byte>)
    requires Covers(pos, g1 + r1, size, size) && Covers(pos, g2 + r2, size, size)
    requires FlagBits(g1) == FlagBits(g2)
    requires Payload(g1) <= s && Payload(g2) <= s
    requires |g1| < |g2| ==> r1 == []
    requires |g2| < |g1| ==> r2 == []
    ensures g1 == g2
    ensures Covers(EndOf(pos, g1), r1, size, size) && Covers(EndOf(pos, g2), r2, size, size)
    decreases |g1|
  {
    hide Payload, Code;
    if g1 == [] || g2 == [] {
      CoversNonempty(pos, g1 + r1, size);
      CoversNonempty(pos, g2 + r2, size);
      assert g1 + r1 == r1 || g2 + r2 == r2;
      assert |g1 + r1| == |g1| + |r1| && |g2 + r2| == |g2| + |r2|;
      assert g1 == g2;
      assert g1 + r1 == r1 && g2 + r2 == r2;
    } else {
      var t1, t2 := g1[0], g2[0];
      CoversTail(pos, g1, r1, size);
      CoversTail(pos, g2, r2, size);
      assert Flag(t1) == Flag(t2) && FlagBits(g1[1..]) == FlagBits(g2[1..]);
      PayloadTail(g1, s);
      PayloadTail(g2, s);
      TokenInjective(pos, t1, t2, size, s);
      GroupInjective(pos + Covered(t1), g1[1..], r1, g2[1..], r2, size, s[|Code(t1)|..]);
      assert g1 == [t1] + g1[1..] && g2 == [t2] + g2[1..];
    }
  }

  lemma CoversTail(pos: nat, g: seq<Token>, r: seq<Token>, size: nat)
    requires g != [] && Covers(pos, g + r, size, size)
    ensures TokenOk(pos, g[0], size) && Covers(pos + Covered(g[0]), g[1..] + r, size, size)
  {
    assert (g + r)[0] == g[0] && (g + r)[1..] == g[1..] + r;
  }

  lemma PayloadTail(g: seq<Token>, s: seq<Byte>)
    requires g != [] && Payload(g) <= s
    ensures Code(g[0]) <= s && Payload(g[1..]) <= s[|Code(g[0])|..]
  {
    PrefixSplit(Code(g[0]), Payload(g[1..]), s);
  }

  lemma PrefixSplit(a: seq<Byte>, b: seq<Byte>, s: seq<Byte>)
    requires a + b <= s
    ensures a <= s && b <= s[|a|..]
  {
    assert s[..|a|] == (a + b)[..|a|] == a;
    assert s[|a|..][..|b|] == (a + b)[|a|..] == b;
  }

  lemma TokenInjective(pos: nat, t1: Token, t2: Token, size: nat, s: seq<Byte>)
    requires TokenOk(pos, t1, size) && TokenOk(pos, t2, size)
    requires Flag(t1) == Flag(t2) && Code(t1) <= s && Code(t2) <= s
    ensures t1 == t2
  {
    if t1.Match? {
      var pad := s + [0, 0, 0, 0];
      assert Code(t1) <= pad && Code(t2) <= pad;
      MatchCodeRoundTrip(t1.offset, t1.len, pad);
      MatchCodeRoundTrip(t2.offset, t2.len, pad);
    } else {
      assert s[0] == t1.b && s[0] == t2.b;
    }
  }

  lemma {:induction false} PayloadAppend(a: seq<Token>, b: seq<Token>)
    ensures Payload(a + b) == Payload(a) + Payload(b)
    decreases |a|
  {
    hide Code;
    if a == [] {
      assert a + b == b;
    } else {
      assert (a + b)[1..] == a[1..] + b;
      PayloadAppend(a[1..], b);
    }
  }

  /** A stream costs its encodings plus four bytes for every 31 tokens. */
  lemma {:induction false} LayoutSize(ts: seq<Token>)
    ensures |Layout(ts)| == |Payload(ts)| + 4 * ((|ts| + 30) / 31)
    decreases |ts|
  {
    hide Payload, Word, Le;
    if |ts| > GROUP {
      var g, tail := ts[..GROUP], ts[GROUP..];
      LayoutSize(tail);
      PayloadAppend(g, tail);
      assert ts == g + tail;
      assert (|ts| + 30) / 31 == 1 + (|tail| + 30) / 31;
    } else if ts == [] {
      PayloadEmpty();
    }
  }

  lemma PayloadEmpty()
    ensures Payload([]) == []
  {
  }

  lemma CodeSize(t: Token)
    requires t.Match? ==> MIN_OFFSET <= t.offset <= MAX_OFFSET && 3 <= t.len <= MAX_MATCH
    ensures 1 <= |Code(t)| <= Covered(t) && |Code(t)| <= 4
  {
    if t.Match? { MatchCodeRange(t.offset, t.len); }
  }

  /** No token costs more bytes than it covers. */
  lemma {:induction false} PayloadBound(pos: nat, ts: seq<Token>, end: nat, size: nat)
    requires Covers(pos, ts, end, size)
    ensures |ts| <= |Payload(ts)| <= end - pos
    decreases |ts|
  {
    hide Code;
    if ts != [] {
      CodeSize(ts[0]);
      PayloadBound(pos + Covered(ts[0]), ts[1..], end, size);
    }
  }

  // ----- the header and the whole stream

  function HeaderField(size: nat): nat { if size < 216 then 1 else 4 }
  function HeaderSize(size: nat): nat { 2 * HeaderField(size) + 1 }

  /** Flag byte, compressed size, original size: 3 bytes below 216 bytes of
      input, 9 bytes from there on. */
  function Header(size: nat, total: nat, compressed: bool): (h: seq<Byte>)
    ensures |h| == HeaderSize(size)
  {
    var c := if compressed then 1 else 0;
    if size < 216 then [76 + c] + Le(total, 1) + Le(size, 1)
    else [78 + c] + Le(total, 4) + Le(size, 4)
  }

  const LEVEL := 3

  /** The flag byte: bit 0 says whether the data are compressed, bit 1 whether the sizes take
      four bytes, bits 2 and 3 hold the level, and bit 6 is always set. */
  lemma HeaderFlags(size: nat, total: nat, compressed: bool)
    ensures var f := Header(size, total, compressed)[0];
            && Digit(f, 0) == (if compressed then 1 else 0) && Digit(f, 1) == (if size < 216 then 0 else 1)
            && f / 4 % 4 == LEVEL && Digit(f, 4) == 0 && Digit(f, 5) == 0 && Digit(f, 6) == 1 && Digit(f, 7) == 0
  {
    PowersToSeven();
    hide Pow2, Le;
  }

  lemma PowersToSeven()
    ensures Pow2(0) == 1 && Pow2(1) == 2 && Pow2(4) == 16 && Pow2(5) == 32 && Pow2(6) == 64 && Pow2(7) == 128
  {
  }

  const MAX_SIZE := 0xffff_ffff - 400

  /** `stream` is a stored or compressed form of `data`, carrying its own length. */
  ghost predicate EncodesWith(stream: seq<Byte>, data: seq<Byte>, ts: seq<Token>) {
    && |stream| >= HeaderSize(|data|)
    && Layout(ts) <= stream[HeaderSize(|data|)..]
    && Covers(0, ts, |data|, |data|)
    && Expand([], ts) == data
  }

  ghost predicate Encodes(stream: seq<Byte>, data: seq<Byte>) {
    var h := HeaderSize(|data|);
    && 0 < |data| <= MAX_SIZE
    && |stream| < (if |data| < 216 then 256 else 4294967296)
    && |stream| >= h
    && (|| (Header(|data|, |stream|, false) <= stream && stream[h..] == data)
        || (Header(|data|, |stream|, true) <= stream && |stream| >= h + 9
            && exists ts :: EncodesWith(stream, data, ts)))
  }

  function SizeFieldBytes(s: seq<Byte>): nat
    requires |s| > 0
  {
    if s[0] / 2 % 2 == 1 then 4 else 1
  }

  /** fast_read of one or four bytes. */
  function ReadField(s: seq<Byte>, at: nat, n: nat): nat
    requires n == 1 || n == 4
    requires at + n <= |s|
  {
    if n == 4 then FromLe4(s[at..]) else s[at]
  }

  function SizeDecompressed(s: seq<Byte>): nat
    requires |s| >= 9
  {
    ReadField(s, 1 + SizeFieldBytes(s), SizeFieldBytes(s))
  }

  function SizeCompressed(s: seq<Byte>): nat
    requires |s| >= 9
  {
    ReadField(s, 1, SizeFieldBytes(s))
  }

  function SizeHeader(s: seq<Byte>): nat
    requires |s| > 0
  {
    2 * SizeFieldBytes(s) + 1
  }

  /** The size functions read the true lengths back from either header form,
      given the nine bytes they are documented to need. */
  lemma ShortHeader(stream: seq<Byte>, size: nat, total: nat, compressed: bool)
    requires |stream| >= 9 && size < 216 && total < 256
    requires Header(size, total, compressed) <= stream
    ensures stream[0] == (if compressed then 77 else 76) && stream[1] == total && stream[2] == size
  {
    var h := Header(size, total, compressed);
    assert h == [if compressed then 77 else 76, total, size];
    assert h[0] == stream[0] && h[1] == stream[1] && h[2] == stream[2];
  }

  lemma LongHeader(stream: seq<Byte>, size: nat, total: nat, compressed: bool)
    requires |stream| >= 9 && 216 <= size < 4294967296 && total < 4294967296
    requires Header(size, total, compressed) <= stream
    ensures stream[0] == (if compressed then 79 else 78)
    ensures FromLe4(stream[1..]) == total && FromLe4(stream[5..]) == size
  {
    hide Le, FromLe4;
    var h := Header(size, total, compressed);
    assert h[0] == stream[0];
    assert stream[1..][..4] == h[1..5] == Le(total, 4);
    assert stream[5..][..4] == h[5..9] == Le(size, 4);
    Le4RoundTrip(total, stream[1..]);
    Le4RoundTrip(size, stream[5..]);
  }

  lemma HeaderRoundTrip(stream: seq<Byte>, size: nat, total: nat, compressed: bool)
    requires |stream| >= 9
    requires size < (if size < 216 then 256 else 4294967296)
    requires total < (if size < 216 then 256 else 4294967296)
    requires Header(size, total, compressed) <= stream
    ensures SizeDecompressed(stream) == size
    ensures SizeCompressed(stream) == total
    ensures SizeHeader(stream) == HeaderSize(size)
    ensures stream[0] % 2 == (if compressed then 1 else 0)
  {
    hide Header, FromLe4;
    if size < 216 {
      ShortHeader(stream, size, total, compressed);
    } else {
      LongHeader(stream, size, total, compressed);
    }
  }

  /** A stream is the encoding of one byte string only. */
  lemma EncodesUnique(stream: seq<Byte>, d1: seq<Byte>, d2: seq<Byte>)
    requires Encodes(stream, d1) && Encodes(stream, d2)
    ensures d1 == d2
  {
    var pad := stream + [0, 0, 0, 0, 0, 0, 0, 0, 0];
    var c1 := !(Header(|d1|, |stream|, false) <= stream && stream[HeaderSize(|d1|)..] == d1);
    var c2 := !(Header(|d2|, |stream|, false) <= stream && stream[HeaderSize(|d2|)..] == d2);
    assert Header(|d1|, |stream|, c1) <= pad && Header(|d2|, |stream|, c2) <= pad;
    HeaderRoundTrip(pad, |d1|, |stream|, c1);
    HeaderRoundTrip(pad, |d2|, |stream|, c2);
    if c1 {
      var t1 :| EncodesWith(stream, d1, t1);
      var t2 :| EncodesWith(stream, d2, t2);
      LayoutInjective(0, t1, t2, |d1|, stream[HeaderSize(|d1|)..]);
    }
  }
}

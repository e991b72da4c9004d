/** The QuickLZ level 3 decompressor: literals are consumed up to four at a time
    through a lookup table on the control word, matches are copied in place with
    overlapping four-byte moves. */
module QuickLzDecompress {
  import opened Arithmetic
  import opened QuickLzFormat

  const BITLUT: seq<nat> := [4, 0, 1, 0, 2, 0, 1, 0, 3, 0, 1, 0, 2, 0, 1, 0]

  // ----- copying

  /** A 32-bit load followed by a 32-bit store. */
  method MoveFour(a: array<Byte>, to: nat, from: nat)
    requires from + 4 <= a.Length && to + 4 <= a.Length
    modifies a
    ensures a[to] == old(a[from]) && a[to + 1] == old(a[from + 1])
    ensures a[to + 2] == old(a[from + 2]) && a[to + 3] == old(a[from + 3])
    ensures forall i :: 0 <= i < a.Length && !(to <= i < to + 4) ==> a[i] == old(a[i])
  {
    a[to], a[to + 1], a[to + 2], a[to + 3] := a[from], a[from + 1], a[from + 2], a[from + 3];
  }

  /** Such a move over a distance of at least three leaves three bytes that repeat. */
  method MoveUp(a: array<Byte>, to: nat, from: nat)
    requires from + MIN_OFFSET <= to && to + 4 <= a.Length
    modifies a
    ensures forall i :: to <= i < to + 3 ==> a[i] == a[i - (to - from)]
    ensures forall i :: 0 <= i < a.Length && !(to <= i < to + 4) ==> a[i] == old(a[i])
  {
    MoveFour(a, to, from);
  }

  /** memcpy_up as it is built for x86: four bytes are read, then written, and both
      pointers advance by three. The fourth byte of a move may be wrong until the
      next move rewrites it; up to three bytes past the end are overwritten. */
  method MemcpyUpStrided(a: array<Byte>, dst: nat, offset2: nat, n: nat)
    requires 1 <= n && offset2 + MIN_OFFSET <= dst && dst + n + 3 <= a.Length
    modifies a
    ensures a[..dst + n] == CopyBack(old(a[..dst]), dst - offset2, n)
    ensures forall i :: dst + n + 3 <= i < a.Length ==> a[i] == old(a[i])
  {
    var f := 0;
    ghost var offset := dst - offset2;
    while true
      invariant 0 <= f < n
      invariant forall i :: 0 <= i < dst ==> a[i] == old(a[i])
      invariant forall i :: dst <= i < dst + f ==> a[i] == a[i - offset]
      invariant forall i :: dst + n + 3 <= i < a.Length ==> a[i] == old(a[i])
      decreases n - f
    {
      MoveUp(a, dst + f, offset2 + f);
      f := f + 3;
      if f >= n { break; }
    }
    Copied(old(a[..dst]), a[..dst + n], offset, n);
  }

  /** memcpy_up in its portable form, byte by byte. */
  method MemcpyUp(a: array<Byte>, dst: nat, offset2: nat, n: nat)
    requires offset2 < dst && dst + n <= a.Length
    modifies a
    ensures a[..dst + n] == CopyBack(old(a[..dst]), dst - offset2, n)
    ensures forall i :: dst + n <= i < a.Length ==> a[i] == old(a[i])
  {
    var f := 0;
    ghost var offset := dst - offset2;
    while f < n
      invariant 0 <= f <= n
      invariant forall i :: 0 <= i < dst ==> a[i] == old(a[i])
      invariant forall i :: dst <= i < dst + f ==> a[i] == a[i - offset]
      invariant forall i :: dst + n <= i < a.Length ==> a[i] == old(a[i])
    {
      a[dst + f] := a[offset2 + f];
      f := f + 1;
    }
    Copied(old(a[..dst]), a[..dst + n], offset, n);
  }

  lemma Copied(before: seq<Byte>, now: seq<Byte>, offset: nat, n: nat)
    requires 0 < offset <= |before| && |now| == |before| + n
    requires forall i :: 0 <= i < |before| ==> now[i] == before[i]
    requires forall i :: |before| <= i < |now| ==> now[i] == now[i - offset]
    ensures now == CopyBack(before, offset, n)
  {
    assert now[..|before|] == before;
    CopyBackUnique(before, offset, n, now);
  }

  // ----- what is left to read

  /** The open group's remaining tokens `grp`, with `slots` flag positions left in
      its control word, then the groups holding `rest`, are what the source holds
      from `src` on, and they take `out` to `data`. */
  ghost predicate Reading(source: seq<Byte>, src: nat, cword: nat, out: seq<Byte>,
                          grp: seq<Token>, slots: nat, rest: seq<Token>, data: seq<Byte>) {
    && src <= |source| && Payload(grp) + Layout(rest) <= source[src..]
    && cword == FlagBits(grp) + Pow2(slots) && |grp| <= slots
    && (rest != [] ==> slots == |grp|)
    && Covers(|out|, grp + rest, |data|, |data|) && Expand(out, grp + rest) == data
  }

  /** A control word equal to 1 is spent; the next one starts the next group. */
  lemma NextGroup(source: seq<Byte>, src: nat, out: seq<Byte>, grp: seq<Token>, slots: nat, rest: seq<Token>,
                  data: seq<Byte>)
    requires Reading(source, src, 1, out, grp, slots, rest, data) && |out| < |data|
    ensures rest != [] && src + CWORD_LEN <= |source|
    ensures FromLe4(source[src..]) >= 0x8000_0000
    ensures var g := FirstGroup(rest);
            Reading(source, src + CWORD_LEN, FromLe4(source[src..]), out, g, GROUP, rest[|g|..], data)
  {
    hide Payload, FlagBits, Code, Le, Layout, FirstGroup, Expand, Covers;
    SpentWord(grp, slots);
    PayloadEmpty();
    assert grp == [] && grp + rest == rest;
    SomethingLeft(|out|, rest, |data|);
    assert [] + Layout(rest) == Layout(rest);
    GroupAhead(rest, source[src..]);
    assert source[src..][4..] == source[src + 4..];
    Pow2At31();
  }

  lemma SomethingLeft(pos: nat, rest: seq<Token>, size: nat)
    requires Covers(pos, rest, size, size) && pos < size
    ensures rest != []
  {
  }

  /** What a prefix of groups says about the bytes that start with it. */
  lemma GroupAhead(rest: seq<Token>, s: seq<Byte>)
    requires rest != [] && Layout(rest) <= s
    ensures var g := FirstGroup(rest);
            && |g| <= GROUP && rest == g + rest[|g|..] && (rest[|g|..] != [] ==> |g| == GROUP)
            && |s| >= CWORD_LEN && FromLe4(s) == FlagBits(g) + 0x8000_0000
            && Payload(g) + Layout(rest[|g|..]) <= s[CWORD_LEN..]
  {
    hide Payload, FlagBits, Code, Le, Layout;
    var g := FirstGroup(rest);
    LayoutFirstGroup(rest);
    PrefixSplit(GroupBytes(g), Layout(rest[|g|..]), s);
    PrefixSplit(Le(Word(g), 4), Payload(g), s);
    GroupPrefix(g, Layout(rest[|g|..]), s);
    WordRange(g);
    Le4RoundTrip(Word(g), s);
  }

  lemma GroupPrefix(g: seq<Token>, tail: seq<Byte>, s: seq<Byte>)
    requires GroupBytes(g) + tail <= s
    ensures Payload(g) + tail <= s[4..]
  {
    assert GroupBytes(g) + tail == Le(Word(g), 4) + (Payload(g) + tail);
    PrefixSplit(Le(Word(g), 4), Payload(g) + tail, s);
  }

  lemma SpentWord(grp: seq<Token>, slots: nat)
    requires FlagBits(grp) + Pow2(slots) == 1 && |grp| <= slots
    ensures slots == 0 && grp == []
  {
  }

  lemma GroupNotEmpty(source: seq<Byte>, src: nat, cword: nat, out: seq<Byte>, grp: seq<Token>, slots: nat,
                      rest: seq<Token>, data: seq<Byte>)
    requires Reading(source, src, cword, out, grp, slots, rest, data)
    requires cword != 1 && |out| < |data|
    ensures grp != [] && slots > 0
  {
    CoversNonempty(|out|, grp + rest, |data|);
    assert slots == 0 ==> grp == [] && cword == 1;
  }

  /** While output is missing and the word is not spent, the open group has a token,
      and the low bit of the word is its flag. */
  lemma HasToken(source: seq<Byte>, src: nat, cword: nat, out: seq<Byte>, grp: seq<Token>, slots: nat,
                 rest: seq<Token>, data: seq<Byte>)
    requires Reading(source, src, cword, out, grp, slots, rest, data)
    requires cword != 1 && |out| < |data|
    ensures grp != [] && slots > 0 && TokenOk(|out|, grp[0], |data|)
    ensures cword % 2 == Flag(grp[0]) && cword / 2 == FlagBits(grp[1..]) + Pow2(slots - 1)
    ensures src <= |source| && Code(grp[0]) <= source[src..]
  {
    hide Code, Layout, Expand, FlagBits, Pow2, Payload, Covers;
    GroupNotEmpty(source, src, cword, out, grp, slots, rest, data);
    CoversTail(|out|, grp, rest, |data|);
    LowestFlag(grp, slots);
    StepPayload(grp, rest, source[src..]);
  }

  lemma LowestFlag(grp: seq<Token>, slots: nat)
    requires grp != [] && slots > 0
    ensures var cword := FlagBits(grp) + Pow2(slots);
            cword % 2 == Flag(grp[0]) && cword / 2 == FlagBits(grp[1..]) + Pow2(slots - 1)
  {
    var rest := FlagBits(grp[1..]) + Pow2(slots - 1);
    assert FlagBits(grp) + Pow2(slots) == Flag(grp[0]) + 2 * rest;
  }

  lemma StepPayload(grp: seq<Token>, rest: seq<Token>, s: seq<Byte>)
    requires grp != [] && Payload(grp) + Layout(rest) <= s
    ensures Code(grp[0]) <= s && Payload(grp[1..]) + Layout(rest) <= s[|Code(grp[0])|..]
  {
    hide Code, Layout;
    assert Payload(grp) + Layout(rest) == Code(grp[0]) + (Payload(grp[1..]) + Layout(rest));
    PrefixSplit(Code(grp[0]), Payload(grp[1..]) + Layout(rest), s);
  }

  lemma StepExpand(out: seq<Byte>, grp: seq<Token>, rest: seq<Token>)
    requires grp != []
    ensures Expand(out, grp + rest) == Expand(Apply(out, grp[0]), grp[1..] + rest)
  {
    assert (grp + rest)[0] == grp[0] && (grp + rest)[1..] == grp[1..] + rest;
  }

  /** Consuming the first token of the open group. */
  lemma TakeToken(source: seq<Byte>, src: nat, cword: nat, out: seq<Byte>, grp: seq<Token>, slots: nat,
                  rest: seq<Token>, data: seq<Byte>)
    requires Reading(source, src, cword, out, grp, slots, rest, data)
    requires cword != 1 && |out| < |data|
    ensures grp != [] && slots > 0
    ensures Reading(source, src + |Code(grp[0])|, cword / 2, Apply(out, grp[0]), grp[1..], slots - 1, rest, data)
    ensures |Apply(out, grp[0])| == |out| + Covered(grp[0])
  {
    hide Code, Layout, Payload, FlagBits, Pow2, Expand, Covers;
    HasToken(source, src, cword, out, grp, slots, rest, data);
    CoversTail(|out|, grp, rest, |data|);
    StepPayload(grp, rest, source[src..]);
    StepExpand(out, grp, rest);
    assert source[src..][|Code(grp[0])|..] == source[src + |Code(grp[0])|..];
  }

  /** The next n tokens are literals, and reading goes on behind them. */
  ghost predicate LiteralsTaken(source: seq<Byte>, src: nat, cword: nat, out: seq<Byte>, grp: seq<Token>,
                                slots: nat, rest: seq<Token>, data: seq<Byte>, n: nat) {
    && n <= |grp| && n <= slots && src + n <= |source|
    && Reading(source, src + n, ShiftRight(cword, n), out + source[src..src + n], grp[n..], slots - n, rest, data)
  }

  /** A run of clear flags is a run of literals. */
  lemma {:induction false} TakeLiterals(source: seq<Byte>, src: nat, cword: nat, out: seq<Byte>, grp: seq<Token>,
                                        slots: nat, rest: seq<Token>, data: seq<Byte>, n: nat)
    requires Reading(source, src, cword, out, grp, slots, rest, data)
    requires cword % Pow2(n) == 0 && |out| + n <= |data|
    ensures LiteralsTaken(source, src, cword, out, grp, slots, rest, data, n)
    decreases n
  {
    hide Reading, Payload, Layout, FlagBits;
    if n == 0 {
      assert src <= |source| by { SourceBound(source, src, cword, out, grp, slots, rest, data); }
      assert out + source[src..src] == out && grp[0..] == grp;
    } else {
      SourceBound(source, src, cword, out, grp, slots, rest, data);
      HalfMultiple(cword, Pow2(n - 1));
      HasToken(source, src, cword, out, grp, slots, rest, data);
      TakeToken(source, src, cword, out, grp, slots, rest, data);
      assert grp[0] == Lit(source[src]);
      TakeLiterals(source, src + 1, cword / 2, out + [source[src]], grp[1..], slots - 1, rest, data, n - 1);
      assert grp[1..][n - 1..] == grp[n..];
      assert out + [source[src]] + source[src + 1..src + n] == out + source[src..src + n];
    }
  }

  lemma SourceBound(source: seq<Byte>, src: nat, cword: nat, out: seq<Byte>, grp: seq<Token>, slots: nat,
                    rest: seq<Token>, data: seq<Byte>)
    requires Reading(source, src, cword, out, grp, slots, rest, data)
    ensures src <= |source| && cword > 0 && |out| <= |data|
  {
    ExpandLength(out, grp + rest, |data|, |data|);
  }

  lemma HalfMultiple(x: nat, p: nat)
    requires p > 0 && x > 0 && x % (2 * p) == 0
    ensures x % 2 == 0 && x != 1 && (x / 2) % p == 0
  {
    var k := x / (2 * p);
    assert x == 2 * p * k;
    assert x == 2 * (p * k);
    DivIs(x, 2, p * k, 0);
    DivIs(p * k, p, k, 0);
  }

  /** The table counts trailing clear flags, four at most. */
  lemma BitlutIsLiteralRun(cword: nat)
    requires cword % 2 == 0
    ensures var n := BITLUT[cword % 16]; 1 <= n <= 4 && cword % Pow2(n) == 0
  {
    var k, m := cword / 16, cword % 16;
    assert cword == 16 * k + m;
    SmallPowers();
    if m == 0 { assert cword % 16 == 0; }
    else if m == 8 { DivIs(cword, 8, 2 * k + 1, 0); }
    else if m == 4 { DivIs(cword, 4, 4 * k + 1, 0); }
    else if m == 12 { DivIs(cword, 4, 4 * k + 3, 0); }
    else { assert BITLUT[m] == 1; }
  }

  lemma SmallPowers()
    ensures Pow2(1) == 2 && Pow2(2) == 4 && Pow2(3) == 8 && Pow2(4) == 16
  {
    assert Pow2(1) == 2;
    assert Pow2(2) == 4;
    assert Pow2(3) == 8;
  }

  /** Four bytes can be read wherever at least four bytes of output are missing. */
  lemma {:induction false} EnoughSource(pos: nat, grp: seq<Token>, rest: seq<Token>, size: nat)
    requires Covers(pos, grp + rest, size, size) && pos + UNCOMPRESSED_END <= size
    ensures |Payload(grp) + Layout(rest)| >= UNCOMPRESSED_END
    decreases |grp| + |rest|
  {
    hide Layout, Code;
    LayoutSize(rest);
    PayloadAppend(grp, rest);
    EnoughPayload(pos, grp + rest, size);
  }

  lemma {:induction false} EnoughPayload(pos: nat, ts: seq<Token>, size: nat)
    requires Covers(pos, ts, size, size) && pos <= size
    ensures |Payload(ts)| >= if size - pos < UNCOMPRESSED_END then size - pos else UNCOMPRESSED_END
    decreases |ts|
  {
    hide Code;
    if ts != [] {
      CodeSize(ts[0]);
      EnoughPayload(pos + Covered(ts[0]), ts[1..], size);
    }
  }

  // ----- the decompressor

  /** Where the core loop stands: the source cursor, the output written so far
      and, for the proof, the tokens still to come. */
  ghost predicate CoreInv(source: seq<Byte>, src: nat, cword: nat, a: array<Byte>, dst: nat,
                          grp: seq<Token>, slots: nat, rest: seq<Token>, data: seq<Byte>)
    reads a
  {
    && dst <= a.Length
    && Reading(source, src, cword, a[..dst], grp, slots, rest, data)
  }

  /** Copy one match and step over its encoding. */
  method TakeMatch(source: seq<Byte>, src: nat, cword: nat, a: array<Byte>, dst: nat,
                   ghost grp: seq<Token>, ghost slots: nat, ghost rest: seq<Token>, ghost data: seq<Byte>)
    returns (src': nat, dst': nat)
    requires CoreInv(source, src, cword, a, dst, grp, slots, rest, data)
    requires cword != 1 && cword % 2 == 1 && dst < |data| <= a.Length && src + 4 <= |source|
    modifies a
    ensures grp != [] && slots > 0 && dst < dst' && dst' + UNCOMPRESSED_END <= |data|
    ensures CoreInv(source, src', cword / 2, a, dst', grp[1..], slots - 1, rest, data)
    ensures forall i :: |data| <= i < a.Length ==> a[i] == old(a[i])
  {
    hide Reading, DecodeMatch;
    PlanMatch(source, src, cword, a[..dst], grp, slots, rest, data);
    var (offset, matchlen, n) := DecodeMatch(FromLe4(source[src..]));
    MemcpyUpStrided(a, dst, dst - offset, matchlen);
    src' := src + n;
    dst' := dst + matchlen;
  }

  /** What decoding the bytes at the cursor and copying accordingly achieves. */
  lemma PlanMatch(source: seq<Byte>, src: nat, cword: nat, out: seq<Byte>, grp: seq<Token>, slots: nat,
                  rest: seq<Token>, data: seq<Byte>)
    requires Reading(source, src, cword, out, grp, slots, rest, data)
    requires cword % 2 == 1 && cword != 1 && |out| < |data| && src + 4 <= |source|
    ensures grp != [] && slots > 0
    ensures var (offset, len, n) := DecodeMatch(FromLe4(source[src..]));
            && MIN_OFFSET <= offset <= |out| && 1 <= len && |out| + len + UNCOMPRESSED_END <= |data|
            && Reading(source, src + n, cword / 2, CopyBack(out, offset, len), grp[1..], slots - 1, rest, data)
  {
    hide Reading, Code, DecodeMatch, CopyBack, FlagBits, Pow2;
    HasToken(source, src, cword, out, grp, slots, rest, data);
    MatchDecoded(grp[0], source[src..]);
    TakeToken(source, src, cword, out, grp, slots, rest, data);
  }

  lemma MatchDecoded(t: Token, s: seq<Byte>)
    requires t.Match? && MIN_OFFSET <= t.offset <= MAX_OFFSET && 3 <= t.len <= MAX_MATCH
    requires |s| >= 4 && Code(t) <= s
    ensures DecodeMatch(FromLe4(s)) == (t.offset, t.len, |Code(t)|)
  {
    MatchCodeRoundTrip(t.offset, t.len, s);
  }

  /** Move four bytes and keep as many as the table says are literals. */
  method TakeBatch(source: seq<Byte>, src: nat, cword: nat, a: array<Byte>, dst: nat,
                   ghost grp: seq<Token>, ghost slots: nat, ghost rest: seq<Token>, ghost data: seq<Byte>)
    returns (n: nat)
    requires CoreInv(source, src, cword, a, dst, grp, slots, rest, data)
    requires cword % 2 == 0 && dst + LAST_MATCH_MARGIN < |data| <= a.Length && src + 4 <= |source|
    modifies a
    ensures 1 <= n <= 4 && n <= |grp| && n <= slots
    ensures CoreInv(source, src + n, ShiftRight(cword, n), a, dst + n, grp[n..], slots - n, rest, data)
    ensures forall i :: |data| <= i < a.Length ==> a[i] == old(a[i])
  {
    hide Reading;
    BitlutIsLiteralRun(cword);
    n := BITLUT[cword % 16];
    ghost var out := a[..dst];
    TakeLiterals(source, src, cword, out, grp, slots, rest, data, n);
    a[dst], a[dst + 1], a[dst + 2], a[dst + 3] := source[src], source[src + 1], source[src + 2], source[src + 3];
    BatchStored(a[..], out, source, src, n);
  }

  lemma BatchStored(now: seq<Byte>, out: seq<Byte>, source: seq<Byte>, src: nat, n: nat)
    requires src + 4 <= |source| && n <= 4 && |out| + 4 <= |now|
    requires forall i :: 0 <= i < |out| ==> now[i] == out[i]
    requires now[|out|] == source[src] && now[|out| + 1] == source[src + 1]
    requires now[|out| + 2] == source[src + 2] && now[|out| + 3] == source[src + 3]
    ensures now[..|out| + n] == out + source[src..src + n]
  {
  }

  /** Past the last place a match may start everything is literal: copy to the end,
      stepping over the control words in between. */
  method TakeTail(source: seq<Byte>, src0: nat, cword0: nat, a: array<Byte>, dst0: nat, size: nat,
                  ghost grp0: seq<Token>, ghost slots0: nat, ghost rest0: seq<Token>, ghost data: seq<Byte>)
    requires CoreInv(source, src0, cword0, a, dst0, grp0, slots0, rest0, data)
    requires cword0 % 2 == 0 && dst0 + LAST_MATCH_MARGIN >= size && dst0 < size == |data| <= a.Length
    modifies a
    ensures a[..size] == data
    ensures forall i :: |data| <= i < a.Length ==> a[i] == old(a[i])
  {
    hide Reading, Code;
    var src: nat, cword: nat, dst: nat := src0, cword0, dst0;
    ghost var grp, slots: nat, rest := grp0, slots0, rest0;
    while dst < size
      invariant dst <= size
      invariant CoreInv(source, src, cword, a, dst, grp, slots, rest, data)
      invariant dst + LAST_MATCH_MARGIN > |data| || cword % 2 == 0
      invariant forall i :: |data| <= i < a.Length ==> a[i] == old(a[i])
    {
      if cword == 1 {
        NextGroup(source, src, a[..dst], grp, slots, rest, data);
        ghost var g := FirstGroup(rest);
        AllLiteral(source, src + CWORD_LEN, FromLe4(source[src..]), a[..dst], g, rest[|g|..], data);
        src := src + CWORD_LEN;
        cword := 0x8000_0000;
        grp, slots, rest := g, GROUP, rest[|g|..];
      }
      HasToken(source, src, cword, a[..dst], grp, slots, rest, data);
      TakeToken(source, src, cword, a[..dst], grp, slots, rest, data);
      SourceBound(source, src, cword, a[..dst], grp, slots, rest, data);
      LiteralHere(grp[0], source[src..]);
      ghost var out := a[..dst];
      a[dst] := source[src];
      assert a[..dst + 1] == out + [source[src]];
      src, cword, dst := src + 1, cword / 2, dst + 1;
      grp, slots := grp[1..], slots - 1;
    }
    Finished(source, src, cword, a[..dst], grp, slots, rest, data);
  }

  lemma LiteralHere(t: Token, s: seq<Byte>)
    requires t.Lit? && Code(t) <= s
    ensures s != [] && t == Lit(s[0]) && |Code(t)| == 1
  {
  }

  lemma Finished(source: seq<Byte>, src: nat, cword: nat, out: seq<Byte>, grp: seq<Token>, slots: nat,
                 rest: seq<Token>, data: seq<Byte>)
    requires Reading(source, src, cword, out, grp, slots, rest, data) && |out| >= |data|
    ensures out == data
  {
    ExpandLength(out, grp + rest, |data|, |data|);
    CoversNonempty(|out|, grp + rest, |data|);
  }

  /** A control word read where no match can start has no flag set. */
  lemma AllLiteral(source: seq<Byte>, src: nat, cword: nat, out: seq<Byte>, grp: seq<Token>,
                   rest: seq<Token>, data: seq<Byte>)
    requires Reading(source, src, cword, out, grp, GROUP, rest, data)
    requires |out| + LAST_MATCH_MARGIN > |data|
    ensures cword == 0x8000_0000
  {
    NoFlags(|out|, grp, rest, |data|);
    Pow2At31();
  }

  lemma {:induction false} NoFlags(pos: nat, grp: seq<Token>, rest: seq<Token>, size: nat)
    requires Covers(pos, grp + rest, size, size) && pos + LAST_MATCH_MARGIN > size
    ensures FlagBits(grp) == 0
    decreases |grp|
  {
    if grp != [] {
      CoversTail(pos, grp, rest, size);
      NoFlags(pos + Covered(grp[0]), grp[1..], rest, size);
    }
  }

  lemma StartReading(source: seq<Byte>, header: nat, ts: seq<Token>, data: seq<Byte>)
    requires header <= |source| && Layout(ts) <= source[header..]
    requires Covers(0, ts, |data|, |data|) && Expand([], ts) == data
    ensures Reading(source, header, 1, [], [], 0, ts, data)
  {
    PayloadEmpty();
    assert [] + ts == ts;
    assert [] + Layout(ts) == Layout(ts);
  }

  /** The four bytes fetched at the cursor are inside the stream: at least four
      literals are still to come, or the stream is padded to nine bytes. */
  lemma CanFetch(source: seq<Byte>, header: nat, src: nat, cword: nat, out: seq<Byte>, grp: seq<Token>, slots: nat,
                 rest: seq<Token>, data: seq<Byte>)
    requires Reading(source, src, cword, out, grp, slots, rest, data)
    requires |out| + UNCOMPRESSED_END <= |data| || src == header + CWORD_LEN
    requires header + 9 <= |source|
    ensures src + 4 <= |source|
  {
    if |out| + UNCOMPRESSED_END <= |data| {
      EnoughSource(|out|, grp, rest, |data|);
    }
  }

  method DecompressCore(source: seq<Byte>, header: nat, a: array<Byte>, size: nat,
                        ghost ts: seq<Token>, ghost data: seq<Byte>)
    requires 0 < size == |data| <= a.Length
    requires header + 9 <= |source| && Layout(ts) <= source[header..]
    requires Covers(0, ts, |data|, |data|) && Expand([], ts) == data
    modifies a
    ensures a[..size] == data
    ensures forall i :: size <= i < a.Length ==> a[i] == old(a[i])
  {
    hide Reading, Covers, Expand, Layout;
    var src: nat, cword: nat, dst: nat := header, 1, 0;
    ghost var grp, slots: nat, rest := [], 0, ts;
    StartReading(source, header, ts, data);
    assert a[..0] == [];
    while true
      invariant dst < size
      invariant dst == 0 ==> (src, cword, grp, rest) == (header, 1, [], ts)
      invariant dst != 0 ==> dst + UNCOMPRESSED_END <= size
      invariant CoreInv(source, src, cword, a, dst, grp, slots, rest, data)
      invariant forall i :: size <= i < a.Length ==> a[i] == old(a[i])
      decreases size - dst
    {
      if cword == 1 {
        NextGroup(source, src, a[..dst], grp, slots, rest, data);
        ghost var g := FirstGroup(rest);
        cword := FromLe4(source[src..]);
        src := src + CWORD_LEN;
        grp, slots, rest := g, GROUP, rest[|g|..];
      }
      CanFetch(source, header, src, cword, a[..dst], grp, slots, rest, data);
      if cword % 2 == 1 {
        src, dst := TakeMatch(source, src, cword, a, dst, grp, slots, rest, data);
        cword := cword / 2;
        grp, slots := grp[1..], slots - 1;
      } else if dst + LAST_MATCH_MARGIN < size {
        var n := TakeBatch(source, src, cword, a, dst, grp, slots, rest, data);
        src, dst, cword := src + n, dst + n, ShiftRight(cword, n);
        grp, slots := grp[n..], slots - n;
      } else {
        TakeTail(source, src, cword, a, dst, size, grp, slots, rest, data);
        return;
      }
    }
  }

  /** qlz_decompress on a stream that encodes `data`: returns its length and
      reproduces it, touching nothing behind it. */
  method Decompress(source: seq<Byte>, a: array<Byte>, ghost data: seq<Byte>) returns (dsiz: nat)
    requires Encodes(source, data) && |source| >= 9
    requires a.Length >= |data|
    modifies a
    ensures dsiz == |data| && a[..dsiz] == data
    ensures forall i :: dsiz <= i < a.Length ==> a[i] == old(a[i])
  {
    hide Layout, Covers, Expand;
    ghost var compressed := StreamKind(source, data);
    dsiz := SizeDecompressed(source);
    if source[0] % 2 == 1 {
      ghost var ts :| EncodesWith(source, data, ts);
      DecompressCore(source, SizeHeader(source), a, dsiz, ts, data);
    } else {
      var h := SizeHeader(source);
      forall i | 0 <= i < dsiz {
        a[i] := source[h + i];
      }
    }
  }

  lemma StreamKind(source: seq<Byte>, data: seq<Byte>) returns (compressed: bool)
    requires Encodes(source, data) && |source| >= 9
    ensures SizeDecompressed(source) == |data| && SizeCompressed(source) == |source|
    ensures SizeHeader(source) == HeaderSize(|data|)
    ensures compressed <==> source[0] % 2 == 1
    ensures !compressed ==> source[HeaderSize(|data|)..] == data
    ensures compressed ==> |source| >= HeaderSize(|data|) + 9 && exists ts :: EncodesWith(source, data, ts)
  {
    compressed := !(Header(|data|, |source|, false) <= source && source[HeaderSize(|data|)..] == data);
    HeaderRoundTrip(source, |data|, |source|, compressed);
  }
}

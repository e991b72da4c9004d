/** The QuickLZ level 3 compressor, working in place on its hash history and on
    the destination buffer. Positions in the source are indices. */
module QuickLzCompress {
  import opened Arithmetic
  import opened QuickLzFormat
  import opened QuickLzHistory

  // ----- writing

  method FastWrite(a: array<Byte>, at: nat, f: nat, n: nat)
    requires 1 <= n <= 4 && at + n <= a.Length
    modifies a
    ensures a[at..at + n] == Le(f, n)
    ensures forall i :: 0 <= i < a.Length && !(at <= i < at + n) ==> a[i] == old(a[i])
  {
    a[at] := f % 256;
    if n >= 2 { a[at + 1] := f / 256 % 256; }
    if n >= 3 { a[at + 2] := f / 65536 % 256; }
    if n >= 4 { a[at + 3] := f / 16777216 % 256; }
  }

  /** Append the encoding of a token to the output. */
  method WriteToken(a: array<Byte>, at: nat, t: Token) returns (n: nat)
    requires t.Match? ==> MIN_OFFSET <= t.offset <= MAX_OFFSET && 3 <= t.len <= MAX_MATCH
    requires at + (if t.Match? && t.len > 3 then 4 else Covered(t)) <= a.Length
    modifies a
    ensures n == |Code(t)| && at + n <= a.Length
    ensures a[at..at + n] == Code(t)
    ensures forall i :: 0 <= i < a.Length && !(at <= i < at + n) ==> a[i] == old(a[i])
  {
    hide Le;
    match t {
      case Lit(b) =>
        a[at] := b;
        n := 1;
      case Match(offset, len) =>
        MatchCodeRange(offset, len);
        if len == 3 && offset <= 63 {
          FastWrite(a, at, offset * 4, 1);
          n := 1;
        } else if len == 3 && offset <= 16383 {
          FastWrite(a, at, offset * 4 + 1, 2);
          n := 2;
        } else if len <= 18 && offset <= 1023 {
          FastWrite(a, at, (len - 3) * 4 + offset * 64 + 2, 2);
          n := 2;
        } else if len <= 33 {
          FastWrite(a, at, (len - 2) * 4 + offset * 128 + 3, 3);
          n := 3;
        } else {
          FastWrite(a, at, (len - 3) * 128 + offset * 32768 + 3, 4);
          n := 4;
        }
    }
  }

  // ----- what the output means while it is being written

  /** `out` holds whole groups `full`, then four reserved bytes for the control
      word of the open group `grp`, then that group's encodings; `cword` holds the
      flags of the open group above its sentinel. */
  ghost predicate Encoding(data: seq<Byte>, out: seq<Byte>, src: nat, cwordPtr: nat, cword: nat,
                           full: seq<Token>, grp: seq<Token>) {
    && |full| % GROUP == 0 && |grp| <= GROUP && src <= |data|
    && cwordPtr == |Layout(full)| && |out| == cwordPtr + CWORD_LEN + |Payload(grp)|
    && out[..cwordPtr] == Layout(full)
    && out[cwordPtr + CWORD_LEN..] == Payload(grp)
    && cword == CwordOf(grp)
    && Covers(0, full + grp, src, |data|)
    && Expand([], full + grp) == data[..src]
  }

  function CwordOf(grp: seq<Token>): nat
    requires |grp| <= GROUP
  {
    Pow2(GROUP - |grp|) * (1 + 2 * FlagBits(grp))
  }

  lemma CwordStep(grp: seq<Token>, t: Token)
    requires |grp| < GROUP
    ensures CwordOf(grp) % 2 == 0 && CwordOf(grp) / 2 < 0x8000_0000
    ensures CwordOf(grp) / 2 + Flag(t) * 0x8000_0000 == CwordOf(grp + [t])
  {
    var k := |grp|;
    var p, f, w := Pow2(GROUP - k - 1), FlagBits(grp), Pow2(k);
    Pow2Add(GROUP - k - 1, k + 1);
    Pow2At31();
    FlagBitsSnoc(grp, t);
    CwordArithmetic(p, f, w, Flag(t), CwordOf(grp));
  }

  lemma CwordArithmetic(p: nat, f: nat, w: nat, flag: nat, cword: nat)
    requires p > 0 && f < w && p * (2 * w) == 0x8000_0000 && flag <= 1
    requires cword == 2 * p * (1 + 2 * f)
    ensures cword % 2 == 0 && cword / 2 < 0x8000_0000
    ensures cword / 2 + flag * 0x8000_0000 == p * (1 + 2 * (f + flag * w))
  {
    var x := p * (1 + 2 * f);
    HalfProduct(p, 1 + 2 * f);
    assert cword == 2 * x;
    MulStrict(p, 1 + 2 * f, 2 * w);
    if flag == 1 {
      Distribute(p, 1 + 2 * f, 2 * w);
      assert 1 + 2 * (f + flag * w) == 1 + 2 * f + 2 * w;
    } else {
      assert f + flag * w == f;
    }
  }

  lemma HalfProduct(p: nat, x: nat)
    ensures 2 * p * x == 2 * (p * x)
  {
  }

  lemma MulStrict(p: nat, x: nat, y: nat)
    requires p > 0 && x < y
    ensures p * x < p * y
  {
  }

  lemma Distribute(p: nat, x: nat, y: nat)
    ensures p * (x + y) == p * x + p * y
  {
  }

  /** The sentinel reaches bit 0 exactly when the group is full. */
  lemma CwordFull(grp: seq<Token>)
    requires |grp| <= GROUP
    ensures CwordOf(grp) % 2 == 1 <==> |grp| == GROUP
    ensures |grp| == GROUP ==> CwordOf(grp) / 2 + 0x8000_0000 == Word(grp)
  {
    hide FlagBits, Pow2;
    if |grp| < GROUP {
      CwordStep(grp, Lit(0));
    } else {
      SentinelBottom(FlagBits(grp));
    }
  }

  lemma SentinelBottom(f: nat)
    ensures Pow2(0) * (1 + 2 * f) == 1 + 2 * f
  {
  }

  lemma TokenWritten(data: seq<Byte>, out: seq<Byte>, src: nat, cwordPtr: nat, cword: nat,
                     full: seq<Token>, grp: seq<Token>, t: Token)
    requires Encoding(data, out, src, cwordPtr, cword, full, grp) && |grp| < GROUP
    requires TokenOk(src, t, |data|) && Apply(data[..src], t) == data[..src + Covered(t)]
    ensures Encoding(data, out + Code(t), src + Covered(t), cwordPtr, cword / 2 + Flag(t) * 0x8000_0000,
                         full, grp + [t])
  {
    hide Layout, Code, CwordOf;
    var out' := out + Code(t);
    CwordStep(grp, t);
    PayloadSnoc(grp, t);
    assert full + (grp + [t]) == (full + grp) + [t];
    CoversSnoc(0, full + grp, src, |data|, t);
    ExpandSnoc([], full + grp, t);
    assert out'[..cwordPtr] == out[..cwordPtr];
    assert out'[cwordPtr + CWORD_LEN..] == out[cwordPtr + CWORD_LEN..] + Code(t);
  }

  /** Writing the finished control word and reserving the next one closes the group. */
  lemma GroupClosed(data: seq<Byte>, out: seq<Byte>, src: nat, cwordPtr: nat, cword: nat,
                    full: seq<Token>, grp: seq<Token>, out': seq<Byte>)
    requires Encoding(data, out, src, cwordPtr, cword, full, grp) && |grp| == GROUP
    requires |out'| == |out| + CWORD_LEN
    requires out'[..|out|] == out[..cwordPtr] + Le(cword / 2 + 0x8000_0000, 4) + out[cwordPtr + CWORD_LEN..]
    ensures Encoding(data, out', src, |out|, 0x8000_0000, full + grp, [])
  {
    hide Layout, Code, CwordOf, Covers, Expand, Word, Payload;
    CwordFull(grp);
    CwordEmpty();
    FilledIn(out, cwordPtr, full, grp);
    assert full + grp + [] == full + grp;
    assert Payload([]) == [] by { PayloadEmpty(); }
    assert out'[|out| + CWORD_LEN..] == [];
  }

  lemma CwordEmpty()
    ensures CwordOf([]) == 0x8000_0000
  {
    Pow2At31();
  }

  lemma FilledIn(out: seq<Byte>, cwordPtr: nat, full: seq<Token>, grp: seq<Token>)
    requires |full| % GROUP == 0 && 0 < |grp| <= GROUP
    requires cwordPtr + CWORD_LEN <= |out|
    requires out[..cwordPtr] == Layout(full) && out[cwordPtr + CWORD_LEN..] == Payload(grp)
    ensures out[..cwordPtr] + Le(Word(grp), 4) + out[cwordPtr + CWORD_LEN..] == Layout(full + grp)
  {
    LayoutAppend(full, grp);
    assert Layout(grp) == GroupBytes(grp);
  }

  // ----- how much is written

  /** `srcB` and `dstB` are where the open group starts. */
  ghost predicate Room(size: nat, src: nat, dst: nat, k: nat, srcB: nat, dstB: nat) {
    && srcB + k <= src <= size
    && dst <= dstB + CWORD_LEN + (src - srcB)
    && dst <= dstB + CWORD_LEN + 4 * k
    && 31 * dstB <= 35 * srcB
    && (srcB > size / 2 ==> dstB <= srcB)
  }

  const SLACK := 142

  lemma RoomBound(size: nat, src: nat, dst: nat, k: nat, srcB: nat, dstB: nat)
    requires Room(size, src, dst, k, srcB, dstB) && k <= GROUP
    ensures dst <= size + 128
  {
  }

  lemma RoomStart(size: nat)
    ensures Room(size, 0, CWORD_LEN, 0, 0, 0)
  {
  }

  lemma RoomAfterToken(size: nat, src: nat, dst: nat, k: nat, srcB: nat, dstB: nat, src': nat, dst': nat, k': nat)
    requires Room(size, src, dst, k, srcB, dstB)
    requires dst < dst' <= dst + 4 && dst' - dst <= src' - src && src' <= size && k' == k + 1
    ensures Room(size, src', dst', k', srcB, dstB)
  {
  }

  lemma RoomAfterGroup(size: nat, src: nat, dst: nat, srcB: nat, dstB: nat)
    requires Room(size, src, dst, GROUP, srcB, dstB)
    requires src > size / 2 ==> dst <= src - src / 32
    ensures Room(size, src, dst + CWORD_LEN, 0, src, dst)
  {
  }

  // ----- the compressor

  /** The cursors of qlz_compress_core, relative to where its output starts. */
  datatype Writer = Writer(src: nat, dst: nat, cwordPtr: nat, cword: nat)

  /** Tokens of the closed groups and of the open one; where the open one starts. */
  datatype Trace = Trace(full: seq<Token>, grp: seq<Token>, srcB: nat, dstB: nat)

  ghost predicate Writing(data: seq<Byte>, a: array<Byte>, base: nat, w: Writer, tr: Trace)
    reads a
  {
    && base + w.dst <= a.Length
    && Encoding(data, a[base..base + w.dst], w.src, w.cwordPtr, w.cword, tr.full, tr.grp)
  }

  ghost predicate Untouched(now: seq<Byte>, before: seq<Byte>, from: nat, to: nat) {
    && |now| == |before|
    && forall i :: 0 <= i < |now| && !(from <= i < to) ==> now[i] == before[i]
  }

  lemma WritingFacts(data: seq<Byte>, a: array<Byte>, base: nat, w: Writer, tr: Trace)
    requires Writing(data, a, base, w, tr)
    ensures w.cword % 2 == 1 <==> |tr.grp| == GROUP
    ensures |tr.grp| <= GROUP && w.src <= |data| && w.cwordPtr + CWORD_LEN <= w.dst
  {
    CwordFull(tr.grp);
  }

  method StartWriting(data: seq<Byte>, a: array<Byte>, base: nat) returns (w: Writer, ghost tr: Trace)
    requires base + CWORD_LEN <= a.Length
    ensures w.src == 0 && w.dst == CWORD_LEN && Writing(data, a, base, w, tr)
    ensures tr == Trace([], [], 0, 0)
  {
    CwordEmpty();
    PayloadEmpty();
    w := Writer(0, CWORD_LEN, 0, 0x8000_0000);
    tr := Trace([], [], 0, 0);
    assert a[base..base + CWORD_LEN][..0] == [];
    assert data[..0] == [];
  }

  method FillWord(a: array<Byte>, base: nat, at: nat, dst: nat, v: nat)
    requires at + CWORD_LEN <= dst && base + dst <= a.Length
    modifies a
    ensures a[base..base + dst] == old(a[base..base + dst][..at]) + Le(v, 4)
            + old(a[base..base + dst][at + CWORD_LEN..])
    ensures Untouched(a[..], old(a[..]), base, base + dst)
  {
    hide Le;
    ghost var out := a[base..base + dst];
    FastWrite(a, base + at, v, CWORD_LEN);
    ghost var out' := a[base..base + dst];
    forall i | 0 <= i < dst ensures out'[i] == (if at <= i < at + CWORD_LEN then Le(v, CWORD_LEN)[i - at] else out[i]) {
      if at <= i < at + CWORD_LEN {
        assert a[base + at..base + at + CWORD_LEN][i - at] == a[base + i];
      }
    }
    Spliced(out, out', at, Le(v, CWORD_LEN));
  }

  lemma Spliced(out: seq<Byte>, out': seq<Byte>, at: nat, word: seq<Byte>)
    requires |out'| == |out| && at + |word| <= |out|
    requires forall i :: 0 <= i < |out| ==> out'[i] == (if at <= i < at + |word| then word[i - at] else out[i])
    ensures out' == out[..at] + word + out[at + |word|..]
  {
  }

  /** Write the control word of a full group and reserve room for the next. */
  method CloseGroup(data: seq<Byte>, a: array<Byte>, base: nat, w: Writer, ghost tr: Trace)
    returns (w': Writer, ghost tr': Trace)
    requires Writing(data, a, base, w, tr) && |tr.grp| == GROUP
    requires base + w.dst + CWORD_LEN <= a.Length
    modifies a
    ensures Writing(data, a, base, w', tr')
    ensures w' == Writer(w.src, w.dst + CWORD_LEN, w.dst, 0x8000_0000)
    ensures tr' == Trace(tr.full + tr.grp, [], w.src, w.dst)
    ensures Untouched(a[..], old(a[..]), base, base + w'.dst)
  {
    hide Layout, Payload, CwordOf, Covers, Expand, Le;
    ghost var out := a[base..base + w.dst];
    FillWord(a, base, w.cwordPtr, w.dst, w.cword / 2 + 0x8000_0000);
    w' := Writer(w.src, w.dst + CWORD_LEN, w.dst, 0x8000_0000);
    tr' := Trace(tr.full + tr.grp, [], w.src, w.dst);
    ghost var out' := a[base..base + w'.dst];
    assert out'[..w.dst] == a[base..base + w.dst];
    GroupClosed(data, out, w.src, w.cwordPtr, w.cword, tr.full, tr.grp, out');
  }

  lemma Appended(now: seq<Byte>, out: seq<Byte>, code: seq<Byte>)
    requires |now| == |out| + |code|
    requires forall i :: 0 <= i < |out| ==> now[i] == out[i]
    requires forall i :: 0 <= i < |code| ==> now[|out| + i] == code[i]
    ensures now == out + code
  {
  }

  /** The token's code behind what has been written. */
  method AppendToken(a: array<Byte>, base: nat, dst: nat, t: Token) returns (n: nat)
    requires t.Match? ==> MIN_OFFSET <= t.offset <= MAX_OFFSET && 3 <= t.len <= MAX_MATCH
    requires base + dst + (if Covered(t) > 3 then 4 else Covered(t)) <= a.Length
    modifies a
    ensures n == |Code(t)| && base + dst + n <= a.Length
    ensures a[base..base + dst + n] == old(a[base..base + dst]) + Code(t)
    ensures Untouched(a[..], old(a[..]), base, base + dst + n)
  {
    hide Code;
    n := WriteToken(a, base + dst, t);
    forall i | 0 <= i < n ensures a[base + dst + i] == Code(t)[i] {
      assert a[base + dst..base + dst + n][i] == a[base + dst + i];
    }
    Appended(a[base..base + dst + n], old(a[base..base + dst]), Code(t));
  }

  method PutToken(data: seq<Byte>, a: array<Byte>, base: nat, w: Writer, ghost tr: Trace, t: Token)
    returns (w': Writer, ghost tr': Trace)
    requires Writing(data, a, base, w, tr) && |tr.grp| < GROUP
    requires TokenOk(w.src, t, |data|) && Apply(data[..w.src], t) == data[..w.src + Covered(t)]
    requires base + w.dst + (if Covered(t) > 3 then 4 else Covered(t)) <= a.Length
    modifies a
    ensures Writing(data, a, base, w', tr')
    ensures w'.src == w.src + Covered(t) && w.dst < w'.dst && w'.dst - w.dst <= 4 && w'.dst - w.dst <= Covered(t)
    ensures tr' == tr.(grp := tr.grp + [t])
    ensures Untouched(a[..], old(a[..]), base, base + w'.dst)
  {
    hide Encoding, Code, Apply, Untouched;
    CodeSize(t);
    ghost var out := a[base..base + w.dst];
    var n := AppendToken(a, base, w.dst, t);
    w' := Writer(w.src + Covered(t), w.dst + n, w.cwordPtr,
      w.cword / 2 + (if t.Match? then 0x8000_0000 else 0));
    tr' := tr.(grp := tr.grp + [t]);
    TokenWritten(data, out, w.src, w.cwordPtr, w.cword, tr.full, tr.grp, t);
  }

  lemma LiteralApplies(data: seq<Byte>, src: nat)
    requires src < |data|
    ensures Apply(data[..src], Lit(data[src])) == data[..src + 1]
  {
  }

  lemma MatchApplies(data: seq<Byte>, src: nat, o: nat, len: nat)
    requires o < src && src + len <= |data|
    requires forall i :: src <= i < src + len ==> data[i] == data[i - (src - o)]
    ensures Apply(data[..src], Match(src - o, len)) == data[..src + len]
  {
    CopyBackUnique(data[..src], src - o, len, data[..src + len]);
  }

  lemma BestApplies(data: seq<Byte>, src: nat, o: nat, len: nat)
    requires src + LAST_MATCH_MARGIN <= |data| && BestMatch(data, src, o, len) && src - o <= MAX_OFFSET
    ensures 3 <= len && src + len + 2 <= |data| && TokenOk(src, Match(src - o, len), |data|)
    ensures Apply(data[..src], Match(src - o, len)) == data[..src + len]
  {
    BestBefore(data, src, o, len);
    MatchApplies(data, src, o, len);
    hide Apply;
  }

  /** Search, enter the position in the history, and decide: the best match is taken if
      there is one nearer than 131071, with every position it covers entered as well;
      otherwise one literal. */
  method PickToken(data: seq<Byte>, src: nat, state: CompressState) returns (t: Token)
    requires src + LAST_MATCH_MARGIN <= |data|
    requires state.Valid() && state.Holds(data, src)
    modifies state.offset, state.counter
    ensures GreedyToken(data, src, t)
    ensures TokenOk(src, t, |data|) && src + Covered(t) + 2 <= |data|
    ensures Apply(data[..src], t) == data[..src + Covered(t)]
    ensures state.Holds(data, src + Covered(t))
  {
    hide Apply, BestMatch, state.Holds, TokenOk;
    var matchlen, best := FindMatch(data, src, state);
    state.Enter(data, src);
    if matchlen > 2 && src - best < 131071 {
      BestApplies(data, src, best, matchlen);
      var u := 1;
      while u < matchlen
        invariant 1 <= u <= matchlen
        invariant state.Holds(data, src + u)
      {
        state.Enter(data, src + u);
        u := u + 1;
      }
      t := Match(src - best, matchlen);
    } else {
      t := Lit(data[src]);
      if matchlen != 0 { BestAtLeast(data, src, best, matchlen); }
      LiteralChosen(data, src, matchlen, best);
      LiteralApplies(data, src);
    }
  }

  lemma BestAtLeast(data: seq<Byte>, src: nat, o: nat, len: nat)
    requires src + LAST_MATCH_MARGIN <= |data| && BestMatch(data, src, o, len)
    ensures len >= 3
  {
  }

  lemma LiteralChosen(data: seq<Byte>, src: nat, len: nat, o: int)
    requires src + LAST_MATCH_MARGIN <= |data|
    requires if len == 0 then NoMatch(data, src) else 0 <= o && BestMatch(data, src, o, len) && src - o > MAX_OFFSET
    ensures GreedyToken(data, src, Lit(data[src])) && TokenOk(src, Lit(data[src]), |data|)
  {
    forall q: nat, m: nat | BestMatch(data, src, q, m) ensures src - q > MAX_OFFSET {
      if len != 0 { BestMatchUnique(data, src, o, len, q, m); }
      assert Offers(data, src, q, m);
    }
  }

  // ----- giving up

  /** At this point the source gives up: a group has just been filled in the second half
      of the input, and the output so far does not save 1/32 of the input it stands for. */
  ghost predicate Hopeless(size: nat, ts: seq<Token>) {
    var src, dst := |Expand([], ts)|, |Layout(ts)|;
    && ts != [] && |ts| % GROUP == 0
    && src + LAST_MATCH_MARGIN <= size && src > size / 2 && dst > src - src / 32
  }

  /** It did not come to that before the last token. */
  ghost predicate Worthwhile(size: nat, ts: seq<Token>) {
    forall n :: 0 <= n < |ts| ==> !Hopeless(size, ts[..n])
  }

  lemma WorthwhileSnoc(size: nat, ts: seq<Token>, t: Token)
    requires Worthwhile(size, ts) && !Hopeless(size, ts)
    ensures Worthwhile(size, ts + [t])
  {
    hide Hopeless;
    forall n | 0 <= n < |ts + [t]| ensures !Hopeless(size, (ts + [t])[..n]) {
      assert (ts + [t])[..n] == ts[..n];
      if n == |ts| { assert ts[..n] == ts; }
    }
  }

  function Tokens(tr: Trace): seq<Token> { tr.full + tr.grp }

  /** The test of the source is made on its cursors. */
  lemma HopelessIs(data: seq<Byte>, a: array<Byte>, base: nat, w: Writer, tr: Trace)
    requires Writing(data, a, base, w, tr) && (tr.grp != [] || w.src == 0)
    ensures Hopeless(|data|, Tokens(tr)) <==>
            && w.src + LAST_MATCH_MARGIN <= |data| && w.cword % 2 == 1
            && w.src > |data| / 2 && w.dst > w.src - w.src / 32
  {
    hide Layout, Payload, CwordOf, Covers, Expand;
    WritingFacts(data, a, base, w, tr);
    if |tr.grp| == GROUP {
      LayoutAppend(tr.full, tr.grp);
      GroupSize(tr.grp);
    }
  }

  lemma GroupSize(grp: seq<Token>)
    requires |grp| == GROUP
    ensures |Layout(grp)| == CWORD_LEN + |Payload(grp)|
  {
    hide Payload;
    assert Layout(grp) == GroupBytes(grp);
  }

  ghost predicate MainInv(data: seq<Byte>, a: array<Byte>, base: nat, state: CompressState, w: Writer, tr: Trace)
    requires state.Valid()
    reads a, state.offset, state.counter
  {
    && Writing(data, a, base, w, tr) && (tr.grp != [] || w.src == 0)
    && (w.src == 0 || w.src + 2 <= |data|) && state.Holds(data, w.src)
    && Worthwhile(|data|, Tokens(tr)) && Greedy(data, Tokens(tr))
    && Room(|data|, w.src, w.dst, |tr.grp|, tr.srcB, tr.dstB)
  }

  lemma NextTokens(size: nat, tr: Trace, tr': Trace, t: Token)
    requires Worthwhile(size, Tokens(tr)) && !Hopeless(size, Tokens(tr))
    requires tr' == tr || (tr'.full == tr.full + tr.grp && tr'.grp == [])
    ensures Worthwhile(size, Tokens(tr'.(grp := tr'.grp + [t])))
    ensures Tokens(tr'.(grp := tr'.grp + [t])) == Tokens(tr) + [t]
  {
    hide Hopeless, Worthwhile;
    WorthwhileSnoc(size, Tokens(tr), t);
    assert tr'.full + (tr'.grp + [t]) == Tokens(tr) + [t];
  }

  /** One round of the main loop, which adds one token or gives up (`ok` false). */
  method CompressStep(data: seq<Byte>, a: array<Byte>, base: nat, state: CompressState, w: Writer, ghost tr: Trace)
    returns (ok: bool, w': Writer, ghost tr': Trace)
    requires base + |data| + SLACK <= a.Length
    requires state.Valid() && a != state.counter
    requires MainInv(data, a, base, state, w, tr) && w.src + LAST_MATCH_MARGIN <= |data|
    modifies a, state.offset, state.counter
    ensures ok <==> !Hopeless(|data|, Tokens(tr))
    ensures if ok then MainInv(data, a, base, state, w', tr') && w.src < w'.src else tr' == tr
    ensures Untouched(a[..], old(a[..]), base, base + |data| + SLACK)
  {
    hide Apply, Writing, Room, Hopeless, Worthwhile, Tokens, Greedy, GreedyToken, Expand, state.Holds;
    ok, w', tr' := true, w, tr;
    HopelessIs(data, a, base, w, tr);
    TokensSoFar(data, a, base, w, tr);
    WritingFacts(data, a, base, w, tr);
    RoomBound(|data|, w.src, w.dst, |tr.grp|, tr.srcB, tr.dstB);
    if w.cword % 2 == 1 {
      if w.src > |data| / 2 && w.dst > w.src - w.src / 32 {
        ok := false;
        return;
      }
      RoomAfterGroup(|data|, w.src, w.dst, tr.srcB, tr.dstB);
      w', tr' := CloseGroup(data, a, base, w, tr);
    }
    var t := PickToken(data, w'.src, state);
    NextTokens(|data|, tr, tr', t);
    GreedySnoc(data, Tokens(tr), t);
    RoomBound(|data|, w'.src, w'.dst, |tr'.grp|, tr'.srcB, tr'.dstB);
    ghost var was, k := w', |tr'.grp|;
    w', tr' := PutToken(data, a, base, w', tr', t);
    RoomAfterToken(|data|, was.src, was.dst, k, tr'.srcB, tr'.dstB, w'.src, w'.dst, |tr'.grp|);
  }

  lemma MainBound(data: seq<Byte>, a: array<Byte>, base: nat, state: CompressState, w: Writer, tr: Trace)
    requires state.Valid() && MainInv(data, a, base, state, w, tr)
    ensures w.src <= |data| && w.dst <= |data| + 128
  {
    WritingFacts(data, a, base, w, tr);
    RoomBound(|data|, w.src, w.dst, |tr.grp|, tr.srcB, tr.dstB);
  }

  /** The main loop: runs while a match may still start. It gives up at the first point
      where the tokens written so far are hopeless. */
  method CompressMain(data: seq<Byte>, a: array<Byte>, base: nat, state: CompressState)
    returns (ok: bool, w: Writer, ghost tr: Trace)
    requires 0 < |data| && base + |data| + SLACK <= a.Length
    requires state.Valid() && state.Holds(data, 0) && a != state.counter
    modifies a, state.offset, state.counter
    ensures ok ==> Writing(data, a, base, w, tr) && (tr.grp != [] || w.src == 0)
    ensures ok ==> w.src + LAST_MATCH_MARGIN > |data| && w.dst <= |data| + 128
    ensures Worthwhile(|data|, Tokens(tr)) && (ok <==> !Hopeless(|data|, Tokens(tr)))
    ensures Expand([], Tokens(tr)) <= data && Greedy(data, Tokens(tr))
    ensures |data| < LAST_MATCH_MARGIN ==> ok
    ensures Untouched(a[..], old(a[..]), base, base + |data| + SLACK)
  {
    ok := true;
    w, tr := StartWriting(data, a, base);
    RoomStart(|data|);
    assert Worthwhile(|data|, Tokens(tr));
    hide Writing, Room, Hopeless, Expand, Tokens, GreedyToken;
    while w.src + LAST_MATCH_MARGIN <= |data|
      invariant MainInv(data, a, base, state, w, tr)
      invariant Untouched(a[..], old(a[..]), base, base + |data| + SLACK)
      decreases |data| - w.src
    {
      MainBound(data, a, base, state, w, tr);
      TokensSoFar(data, a, base, w, tr);
      ok, w, tr := CompressStep(data, a, base, state, w, tr);
      if !ok {
        return;
      }
      MainBound(data, a, base, state, w, tr);
    }
    MainBound(data, a, base, state, w, tr);
    TokensSoFar(data, a, base, w, tr);
    HopelessIs(data, a, base, w, tr);
  }

  lemma TokensSoFar(data: seq<Byte>, a: array<Byte>, base: nat, w: Writer, tr: Trace)
    requires Writing(data, a, base, w, tr)
    ensures w.src <= |data| && Expand([], Tokens(tr)) == data[..w.src]
  {
  }

  /** The last bytes go out as literals. */
  method CompressTail(data: seq<Byte>, a: array<Byte>, base: nat, w0: Writer, ghost tr0: Trace)
    returns (w: Writer, ghost tr: Trace)
    requires 0 < |data| && base + |data| + SLACK <= a.Length
    requires Writing(data, a, base, w0, tr0) && (tr0.grp != [] || w0.src == 0)
    requires w0.src + LAST_MATCH_MARGIN > |data| && w0.dst <= |data| + 128
    requires Worthwhile(|data|, Tokens(tr0)) && Greedy(data, Tokens(tr0))
    modifies a
    ensures Writing(data, a, base, w, tr) && w.src == |data| && tr.grp != []
    ensures w.dst <= |data| + SLACK && Greedy(data, Tokens(tr))
    ensures Worthwhile(|data|, Tokens(tr)) && !Hopeless(|data|, Tokens(tr))
    ensures Untouched(a[..], old(a[..]), base, base + |data| + SLACK)
  {
    hide Apply, Writing, Hopeless, Worthwhile, Tokens, Greedy, Expand;
    w, tr := w0, tr0;
    WritingFacts(data, a, base, w, tr);
    ghost var closed := false;
    while w.src < |data|
      invariant Writing(data, a, base, w, tr)
      invariant tr.grp != [] || w.src == 0
      invariant w0.src <= w.src <= |data|
      invariant w.dst <= w0.dst + (w.src - w0.src) + (if closed then CWORD_LEN else 0)
      invariant closed ==> |tr.grp| <= w.src - w0.src
      invariant Worthwhile(|data|, Tokens(tr)) && Greedy(data, Tokens(tr))
      invariant Untouched(a[..], old(a[..]), base, base + |data| + SLACK)
      decreases |data| - w.src
    {
      WritingFacts(data, a, base, w, tr);
      HopelessIs(data, a, base, w, tr);
      TokensSoFar(data, a, base, w, tr);
      GreedySnoc(data, Tokens(tr), Lit(data[w.src]));
      ghost var before := tr;
      if w.cword % 2 == 1 {
        w, tr := CloseGroup(data, a, base, w, tr);
        closed := true;
      }
      LiteralApplies(data, w.src);
      NextTokens(|data|, before, tr, Lit(data[w.src]));
      w, tr := PutToken(data, a, base, w, tr, Lit(data[w.src]));
    }
    HopelessIs(data, a, base, w, tr);
  }

  lemma SentinelStep(j: nat, f: nat)
    ensures Pow2(j) * (1 + 2 * f) % 2 == 1 <==> j == 0
    ensures j > 0 ==> Pow2(j) * (1 + 2 * f) / 2 == Pow2(j - 1) * (1 + 2 * f)
  {
    if j > 0 {
      HalfProduct(Pow2(j - 1), 1 + 2 * f);
    } else {
      assert Pow2(0) * (1 + 2 * f) == 1 + 2 * f;
    }
  }

  /** Move the sentinel of the last, usually partial, control word to the bottom. */
  method LowerSentinel(cword0: nat, ghost grp: seq<Token>) returns (cword: nat)
    requires |grp| <= GROUP && cword0 == CwordOf(grp)
    ensures cword / 2 + 0x8000_0000 == Word(grp)
  {
    hide Pow2, FlagBits;
    cword := cword0;
    ghost var j: nat := GROUP - |grp|;
    ghost var f := FlagBits(grp);
    SentinelStep(j, f);
    while cword % 2 != 1
      invariant cword == Pow2(j) * (1 + 2 * f)
      invariant cword % 2 == 1 <==> j == 0
      decreases j
    {
      SentinelStep(j, f);
      cword := cword / 2;
      j := j - 1;
      SentinelStep(j, f);
    }
    assert cword == 1 + 2 * f by { SentinelBottom(f); }
  }

  method WriteLastWord(data: seq<Byte>, a: array<Byte>, base: nat, w: Writer, ghost tr: Trace)
    requires Writing(data, a, base, w, tr) && tr.grp != []
    modifies a
    ensures a[base..base + w.dst] == Layout(tr.full + tr.grp)
    ensures Untouched(a[..], old(a[..]), base, base + w.dst)
  {
    hide Layout, CwordOf, Word, Covers, Expand, Payload, Le;
    WritingFacts(data, a, base, w, tr);
    var cword := LowerSentinel(w.cword, tr.grp);
    ghost var out := a[base..base + w.dst];
    FillWord(a, base, w.cwordPtr, w.dst, cword / 2 + 0x8000_0000);
    FilledIn(out, w.cwordPtr, tr.full, tr.grp);
  }

  lemma WritingDone(data: seq<Byte>, a: array<Byte>, base: nat, w: Writer, tr: Trace)
    requires Writing(data, a, base, w, tr) && w.src == |data|
    ensures Covers(0, tr.full + tr.grp, |data|, |data|) && Expand([], tr.full + tr.grp) == data
  {
    assert data[..|data|] == data;
  }

  /** The stream of the tokens that were found, or 0 exactly if the tokens found up to
      some group boundary were hopeless. */
  method CompressCore(data: seq<Byte>, a: array<Byte>, base: nat, state: CompressState)
    returns (r: nat, ghost ts: seq<Token>)
    requires 0 < |data| && base + |data| + SLACK <= a.Length
    requires state.Valid() && state.Holds(data, 0) && a != state.counter
    modifies a, state.offset, state.counter
    ensures r == 0 || r == (if |Layout(ts)| < 9 then 9 else |Layout(ts)|)
    ensures r <= |data| + SLACK
    ensures r != 0 ==> a[base..base + |Layout(ts)|] == Layout(ts)
    ensures r != 0 ==> Covers(0, ts, |data|, |data|) && Expand([], ts) == data
    ensures r == 0 <==> exists n :: 0 <= n <= |ts| && Hopeless(|data|, ts[..n])
    ensures Expand([], ts) <= data && Greedy(data, ts)
    ensures r == 0 <==> HopelessInput(data)
    ensures |data| < LAST_MATCH_MARGIN ==> r != 0
    ensures Untouched(a[..], old(a[..]), base, base + |data| + SLACK)
  {
    hide Layout, Covers, Expand, Writing, Hopeless, Greedy;
    var ok, w, tr := CompressMain(data, a, base, state);
    ts := Tokens(tr);
    assert ts[..|ts|] == ts;
    if !ok {
      return 0, ts;
    }
    w, tr := CompressTail(data, a, base, w, tr);
    WritingDone(data, a, base, w, tr);
    WritingFacts(data, a, base, w, tr);
    WriteLastWord(data, a, base, w, tr);
    ts := Tokens(tr);
    assert ts[..|ts|] == ts;
    NotHopeless(data, ts);
    r := if w.dst < 9 then 9 else w.dst;
  }

  /** The tokens of the input come to a hopeless point. */
  ghost predicate HopelessInput(data: seq<Byte>) {
    exists g :: Greedy(data, g) && Hopeless(|data|, g)
  }

  lemma NotHopeless(data: seq<Byte>, ts: seq<Token>)
    requires Greedy(data, ts) && Expand([], ts) == data && Worthwhile(|data|, ts) && !Hopeless(|data|, ts)
    ensures !HopelessInput(data)
  {
    hide Greedy, Expand, Hopeless;
    forall g | Greedy(data, g) ensures !Hopeless(|data|, g) {
      GreedyUnique(data, ts, g);
      assert ts[..|ts|] == ts;
    }
  }

  method CopyBytes(data: seq<Byte>, a: array<Byte>, base: nat)
    requires base + |data| <= a.Length
    modifies a
    ensures a[base..base + |data|] == data
    ensures Untouched(a[..], old(a[..]), base, base + |data|)
  {
    forall i | 0 <= i < |data| {
      a[base + i] := data[i];
    }
  }

  /** Flag byte and the two lengths, in one byte each or in four. */
  method WriteHeader(a: array<Byte>, base: nat, r: nat, size: nat, compressed: bool)
    requires base == HeaderSize(size) && base <= a.Length
    requires size < 4294967296 && r < (if size < 216 then 256 else 4294967296)
    modifies a
    ensures a[..base] == Header(size, r, compressed)
    ensures Untouched(a[..], old(a[..]), 0, base)
  {
    var c := if compressed then 1 else 0;
    if size < 216 {
      a[0] := 76 + c;
      a[1] := r;
      a[2] := size;
    } else {
      a[0] := 78 + c;
      FastWrite(a, 1, r, 4);
      FastWrite(a, 5, size, 4);
      assert a[..base] == [a[0]] + a[1..5] + a[5..9];
    }
  }

  lemma StreamFits(ts: seq<Token>, data: seq<Byte>)
    requires Covers(0, ts, |data|, |data|) && |data| < 216
    ensures |Layout(ts)| <= 243
  {
    hide Layout, Payload;
    PayloadBound(0, ts, |data|, |data|);
    LayoutSize(ts);
    assert (|ts| + 30) / 31 <= 7;
  }

  ghost predicate CompressedWith(data: seq<Byte>, stream: seq<Byte>, ts: seq<Token>) {
    var h := HeaderSize(|data|);
    && 0 < |data| <= MAX_SIZE && h + 9 <= |stream| < (if |data| < 216 then 256 else 4294967296)
    && Greedy(data, ts) && Expand([], ts) == data
    && |stream| == h + (if |Layout(ts)| < 9 then 9 else |Layout(ts)|)
    && stream[..h] == Header(|data|, |stream|, true) && Layout(ts) <= stream[h..]
  }

  /** What an input is compressed to: the layout of its tokens, or itself if they come to a
      hopeless point. */
  ghost predicate Compressed(data: seq<Byte>, stream: seq<Byte>) {
    if HopelessInput(data) then
      var h := HeaderSize(|data|);
      && 0 < |data| <= MAX_SIZE && |stream| == h + |data| && |stream| < (if |data| < 216 then 256 else 4294967296)
      && stream[..h] == Header(|data|, |stream|, false) && stream[h..] == data
    else exists ts :: CompressedWith(data, stream, ts)
  }

  /** One input has one compressed form, whatever the buffers held before; only a stream
      shorter than nine bytes is filled up with what was there. */
  lemma CompressedUnique(data: seq<Byte>, s: seq<Byte>, t: seq<Byte>)
    requires Compressed(data, s) && Compressed(data, t)
    ensures |s| == |t| && (HopelessInput(data) || |s| > HeaderSize(|data|) + 9 ==> s == t)
  {
    hide Greedy, Layout, Expand, HopelessInput, Header;
    var h := HeaderSize(|data|);
    assert |s| >= h ==> s == s[..h] + s[h..];
    assert |t| >= h ==> t == t[..h] + t[h..];
    if !HopelessInput(data) {
      var a :| CompressedWith(data, s, a);
      var b :| CompressedWith(data, t, b);
      GreedyUnique(data, a, b);
    }
  }

  /** qlz_compress: refuses empty and oversized input; otherwise writes a stream
      of at most 151 bytes more than the input that encodes it. */
  method Compress(data: seq<Byte>, a: array<Byte>, state: CompressState) returns (r: nat)
    requires |data| <= MAX_SIZE ==> a.Length >= |data| + 400
    requires state.Valid() && a != state.counter
    modifies a, state.offset, state.counter
    ensures r == 0 <==> |data| == 0 || |data| > MAX_SIZE
    ensures r == 0 ==> a[..] == old(a[..])
    ensures r != 0 ==> 9 <= r <= |data| + 151 && r <= a.Length && Encodes(a[..r], data)
    ensures r != 0 ==> Compressed(data, a[..r])
    ensures Untouched(a[..], old(a[..]), 0, |data| + 151)
  {
    hide Layout, Covers, Expand, Header, Encodes, Hopeless, HopelessInput, Greedy;
    if |data| == 0 || |data| > MAX_SIZE {
      return 0;
    }
    var base := if |data| < 216 then 3 else 9;
    state.Reset();
    ghost var ts;
    r, ts := CompressCore(data, a, base, state);
    r := base + r;
    var compressed := true;
    if r == base {
      CopyBytes(data, a, base);
      r := |data| + base;
      compressed := false;
    } else if |data| < 216 {
      StreamFits(ts, data);
    }
    ghost var was := a[..];
    ghost var body := a[base..r];
    WriteHeader(a, base, r, |data|, compressed);
    BodyStays(a[..], was, base, r);
    assert a[base..r] == body;
    if compressed {
      assert body[..|Layout(ts)|] == Layout(ts);
      CompressedForm(a[..r], data, ts);
      assert CompressedWith(data, a[..r], ts);
    } else {
      StoredForm(a[..r], data);
    }
  }

  lemma BodyStays(now: seq<Byte>, before: seq<Byte>, base: nat, r: nat)
    requires Untouched(now, before, 0, base) && base <= r <= |now|
    ensures now[base..r] == before[base..r]
  {
  }

  lemma CompressedForm(stream: seq<Byte>, data: seq<Byte>, ts: seq<Token>)
    requires 0 < |data| <= MAX_SIZE && |stream| < (if |data| < 216 then 256 else 4294967296)
    requires |stream| >= HeaderSize(|data|) + 9 && stream[..HeaderSize(|data|)] == Header(|data|, |stream|, true)
    requires Layout(ts) <= stream[HeaderSize(|data|)..] && Covers(0, ts, |data|, |data|) && Expand([], ts) == data
    ensures Encodes(stream, data)
  {
    hide Layout, Covers, Expand, Header;
    assert EncodesWith(stream, data, ts);
  }

  lemma StoredForm(stream: seq<Byte>, data: seq<Byte>)
    requires 0 < |data| <= MAX_SIZE && |stream| < (if |data| < 216 then 256 else 4294967296)
    requires |stream| >= HeaderSize(|data|) && stream[..HeaderSize(|data|)] == Header(|data|, |stream|, false)
    requires stream[HeaderSize(|data|)..] == data
    ensures Encodes(stream, data)
  {
    hide Header;
  }
}

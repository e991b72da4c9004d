/** An input for which the tokens can be told: n equal bytes are three literals, one match
    at distance 3 up to seven bytes before the end, and four literals. */
module QuickLzRun {
  import opened QuickLzFormat
  import opened QuickLzHistory
  import opened QuickLzCompress

  predicate AllSame(data: seq<Byte>, b: Byte) { forall i :: 0 <= i < |data| ==> data[i] == b }

  function Literals(data: seq<Byte>): seq<Token> {
    if data == [] then [] else Literals(data[..|data| - 1]) + [Lit(data[|data| - 1])]
  }

  /** Up to thirteen bytes are literals only: no match may start less than eleven bytes from
      the end, nor before the fourth byte. */
  lemma {:induction false} FewBytes(data: seq<Byte>, n: nat)
    requires n <= |data| <= 13
    ensures Greedy(data, Literals(data[..n])) && Expand([], Literals(data[..n])) == data[..n]
    decreases n
  {
    hide Expand, Apply, Recent, Shares;
    if n == 0 {
      StartsEmpty(data);
      assert data[..0] == [];
    } else {
      FewBytes(data, n - 1);
      assert data[..n][..n - 1] == data[..n - 1] && data[..n][n - 1] == data[n - 1];
      assert GreedyToken(data, n - 1, Lit(data[n - 1]));
      hide GreedyToken, Greedy;
      LiteralApplies(data, n - 1);
      Grow(data, Literals(data[..n - 1]), n - 1, Lit(data[n - 1]));
    }
  }

  lemma ShortInput(data: seq<Byte>)
    requires |data| <= 13
    ensures Greedy(data, Literals(data)) && Expand([], Literals(data)) == data
  {
    FewBytes(data, |data|);
    assert data[..|data|] == data;
  }

  /** The tokens ts lead to p, and t leads on. */
  lemma Grow(data: seq<Byte>, ts: seq<Token>, p: nat, t: Token)
    requires Greedy(data, ts) && p <= |data| && Expand([], ts) == data[..p] && GreedyToken(data, p, t)
    requires p + Covered(t) <= |data| && Apply(data[..p], t) == data[..p + Covered(t)]
    ensures Greedy(data, ts + [t]) && Expand([], ts + [t]) == data[..p + Covered(t)]
  {
    hide GreedyToken, Apply;
    GreedySnoc(data, ts, t);
    ExpandSnoc([], ts, t);
  }

  lemma GrowLiteral(data: seq<Byte>, ts: seq<Token>, p: nat, b: Byte)
    requires Greedy(data, ts) && p < |data| && AllSame(data, b) && Expand([], ts) == data[..p]
    requires p < 3 || p + LAST_MATCH_MARGIN > |data|
    ensures Greedy(data, ts + [Lit(b)]) && Expand([], ts + [Lit(b)]) == data[..p + 1]
  {
    hide Greedy, Expand, Recent, Shares;
    assert GreedyToken(data, p, Lit(b));
    LiteralApplies(data, p);
    Grow(data, ts, p, Lit(b));
  }

  /** The first three positions are in one bucket. */
  lemma FirstEntered(data: seq<Byte>, b: Byte)
    requires |data| >= 14 && AllSame(data, b)
    ensures Recent(data, 3) == [0, 1, 2]
  {
    var h := HashAt(data, 3);
    SameHash(data, b);
    hide HashAt;
    assert Entered(data, h, 0) == [];
    EnteredNext(data, 0);
    EnteredNext(data, 1);
    EnteredNext(data, 2);
  }

  lemma SameHash(data: seq<Byte>, b: Byte)
    requires |data| >= 14 && AllSame(data, b)
    ensures forall i :: 0 <= i < 4 ==> HashAt(data, i) == HashAt(data, 3)
  {
    hide HashFunc;
  }

  lemma RunMatch(data: seq<Byte>, b: Byte)
    requires 14 <= |data| <= 262 && AllSame(data, b)
    ensures GreedyToken(data, 3, Match(3, |data| - 7))
  {
    FirstEntered(data, b);
    hide Recent;
    assert Offers(data, 3, 0, |data| - 7);
  }

  function RunTokens(n: nat, b: Byte): seq<Token>
    requires n >= 7
  {
    [Lit(b), Lit(b), Lit(b), Match(3, n - 7), Lit(b), Lit(b), Lit(b), Lit(b)]
  }

  lemma EqualBytes(data: seq<Byte>, b: Byte)
    requires 14 <= |data| <= 262 && AllSame(data, b)
    ensures Greedy(data, RunTokens(|data|, b)) && Expand([], RunTokens(|data|, b)) == data
  {
    var n := |data|;
    hide GreedyToken, Greedy, Expand, AllSame, Apply;
    StartsEmpty(data);
    GrowLiteral(data, [], 0, b);
    var one := [] + [Lit(b)];
    GrowLiteral(data, one, 1, b);
    GrowLiteral(data, one + [Lit(b)], 2, b);
    var three := one + [Lit(b)] + [Lit(b)];
    RunMatch(data, b);
    RunApplies(data, b);
    Grow(data, three, 3, Match(3, n - 7));
    var m := three + [Match(3, n - 7)];
    GrowLiteral(data, m, n - 4, b);
    GrowLiteral(data, m + [Lit(b)], n - 3, b);
    GrowLiteral(data, m + [Lit(b)] + [Lit(b)], n - 2, b);
    GrowLiteral(data, m + [Lit(b)] + [Lit(b)] + [Lit(b)], n - 1, b);
    assert m + [Lit(b)] + [Lit(b)] + [Lit(b)] + [Lit(b)] == RunTokens(n, b);
    assert data[..n] == data;
  }

  lemma StartsEmpty(data: seq<Byte>)
    ensures Greedy(data, []) && Expand([], []) == data[..0]
  {
  }

  lemma RunApplies(data: seq<Byte>, b: Byte)
    requires 14 <= |data| && AllSame(data, b)
    ensures Apply(data[..3], Match(3, |data| - 7)) == data[..|data| - 4]
  {
    MatchApplies(data, 3, 0, |data| - 7);
  }

  /** So 41 to 262 equal bytes take fifteen bytes and the header, for instance 24 for 250. */
  lemma RunSize(data: seq<Byte>, b: Byte, stream: seq<Byte>)
    requires 41 <= |data| <= 262 && AllSame(data, b) && Compressed(data, stream)
    ensures |stream| == HeaderSize(|data|) + 15 && stream[..HeaderSize(|data|)] == Header(|data|, |stream|, true)
  {
    EqualBytes(data, b);
    RunLayout(|data|, b);
    NeverHopeless(data, b);
    hide Greedy, Expand, Layout, Header, RunTokens, HopelessInput;
    var a :| CompressedWith(data, stream, a);
    GreedyUnique(data, RunTokens(|data|, b), a);
  }

  /** Eight tokens do not fill a group. */
  lemma NeverHopeless(data: seq<Byte>, b: Byte)
    requires 14 <= |data| <= 262 && AllSame(data, b)
    ensures !HopelessInput(data)
  {
    EqualBytes(data, b);
    assert |RunTokens(|data|, b)| == 8;
    hide Greedy, Expand, Hopeless, RunTokens;
    forall g | Greedy(data, g) ensures !Hopeless(|data|, g) {
      GreedyUnique(data, RunTokens(|data|, b), g);
      ShortHopes(|data|, g);
    }
  }

  lemma ShortHopes(size: nat, g: seq<Token>)
    requires |g| < GROUP
    ensures !Hopeless(size, g)
  {
    hide Layout, Expand;
  }

  lemma RunLayout(n: nat, b: Byte)
    requires 41 <= n <= 262
    ensures |Layout(RunTokens(n, b))| == 15
  {
    hide Layout, Payload;
    LayoutSize(RunTokens(n, b));
    RunPayload(n, b);
  }

  lemma RunPayload(n: nat, b: Byte)
    requires 41 <= n <= 262
    ensures |Payload(RunTokens(n, b))| == 11
  {
    var m, l := Match(3, n - 7), Lit(b);
    PayloadOfOne(l);
    PayloadSnoc([l], l);
    PayloadSnoc([l, l], l);
    PayloadSnoc([l, l, l], m);
    PayloadSnoc([l, l, l, m], l);
    PayloadSnoc([l, l, l, m, l], l);
    PayloadSnoc([l, l, l, m, l, l], l);
    PayloadSnoc([l, l, l, m, l, l, l], l);
    hide Payload;
    assert [l] + [l] == [l, l] && [l, l] + [l] == [l, l, l] && [l, l, l] + [m] == [l, l, l, m];
    assert [l, l, l, m] + [l] == [l, l, l, m, l] && [l, l, l, m, l] + [l] == [l, l, l, m, l, l];
    assert [l, l, l, m, l, l] + [l] == [l, l, l, m, l, l, l];
    assert [l, l, l, m, l, l, l] + [l] == RunTokens(n, b);
  }

  lemma PayloadOfOne(t: Token)
    ensures Payload([t]) == Code(t)
  {
    assert [t][1..] == [];
  }
}

/** The hash history of the QuickLZ level 3 compressor, and the search in it. A slot that
    was not written in this run may hold any number. */
module QuickLzHistory {
  import opened Arithmetic
  import opened QuickLzFormat

  const HASH_VALUES := 4096
  const POINTERS := 16

  function Fetch3(data: seq<Byte>, i: nat): (f: nat)
    requires i + 3 <= |data|
    ensures f < 16777216
  {
    data[i] as int + data[i + 1] as int * 256 + data[i + 2] as int * 65536
  }

  /** ((i >> 12) ^ i) & 4095 */
  function HashFunc(i: nat): (h: nat)
    ensures h < HASH_VALUES
  {
    assert Pow2(12) == 4096;
    XorBelow(i / 4096, i, 12);
    Xor(i / 4096, i, 12)
  }

  function HashAt(data: seq<Byte>, i: nat): (h: nat)
    requires i + 3 <= |data|
    ensures h < HASH_VALUES
  {
    HashFunc(Fetch3(data, i))
  }

  class CompressState {
    const offset: array2<int>
    const counter: array<Byte>

    ghost predicate Valid() {
      && offset.Length0 == HASH_VALUES && offset.Length1 == POINTERS
      && counter.Length == HASH_VALUES
    }

    constructor ()
      ensures Valid() && fresh(offset) && fresh(counter)
    {
      offset := new int[HASH_VALUES, POINTERS];
      counter := new Byte[HASH_VALUES];
    }

    /** The bucket of h has seen the positions p: its counter counts them modulo 256, and
        its slots hold the last 16. */
    ghost predicate BucketHolds(h: nat, p: seq<nat>)
      requires Valid() && h < HASH_VALUES
      reads offset, counter
    {
      && counter[h] as nat == |p| % 256
      && forall j :: 0 <= j < |p| && j + POINTERS >= |p| ==> offset[h, j % POINTERS] == p[j]
    }

    /** Every position of the input below n has been entered in its bucket, in order. */
    ghost predicate Holds(data: seq<Byte>, n: nat)
      requires Valid() && (n == 0 || n + 2 <= |data|)
      reads offset, counter
    {
      forall h :: 0 <= h < HASH_VALUES ==> BucketOk(data, h, n)
    }

    ghost predicate BucketOk(data: seq<Byte>, h: nat, n: nat)
      requires Valid() && h < HASH_VALUES && (n == 0 || n + 2 <= |data|)
      reads offset, counter
    {
      BucketHolds(h, Entered(data, h, n))
    }

    /** A slot the search looks at holds q. */
    ghost predicate InUse(h: nat, q: int)
      requires Valid() && h < HASH_VALUES
      reads offset, counter
    {
      exists k :: 0 <= k < POINTERS && counter[h] > k && offset[h, k] == q
    }

    /** reset_table_compress: the counters go to zero, the slots keep stale values. */
    method Reset()
      requires Valid()
      modifies counter
      ensures forall h :: 0 <= h < HASH_VALUES ==> counter[h] == 0
      ensures forall data: seq<Byte> :: Holds(data, 0)
    {
      for i := 0 to HASH_VALUES
        invariant forall h :: 0 <= h < i ==> counter[h] == 0
      {
        counter[i] := 0;
      }
    }

    /** Write `pos` in the next of the 16 slots; the 8-bit counter wraps around. */
    method Record(h: nat, pos: int)
      requires Valid() && h < HASH_VALUES
      modifies offset, counter
      ensures offset[h, old(counter[h]) % POINTERS] == pos
      ensures counter[h] == (old(counter[h]) as int + 1) % 256
      ensures forall g :: 0 <= g < HASH_VALUES && g != h ==> counter[g] == old(counter[g])
      ensures forall g, k ::
                0 <= g < HASH_VALUES && 0 <= k < POINTERS && (g != h || k != old(counter[h]) % POINTERS) ==>
                  offset[g, k] == old(offset[g, k])
    {
      var c := counter[h];
      offset[h, c % POINTERS] := pos;
      counter[h] := if c == 255 then 0 else c + 1;
    }

    /** Enter one more position of the input. */
    method Enter(data: seq<Byte>, pos: nat)
      requires Valid() && pos + 3 <= |data| && Holds(data, pos)
      modifies offset, counter
      ensures Holds(data, pos + 1)
    {
      var hash := HashAt(data, pos);
      hide HashAt, Entered;
      ghost var p := Entered(data, hash, pos);
      assert BucketOk(data, hash, pos);
      Record(hash, pos);
      EnteredNext(data, pos);
      ghost var next := pos + 1;
      forall g | 0 <= g < HASH_VALUES ensures BucketOk(data, g, next) {
        if g == hash {
          NextSlot(|p|);
          assert BucketHolds(hash, p + [pos]);
        } else {
          assert old(BucketOk(data, g, pos));
        }
      }
    }
  }

  // ----- the positions a bucket has seen

  /** The positions below n whose three bytes have the hash h, in order. */
  function Entered(data: seq<Byte>, h: nat, n: nat): (p: seq<nat>)
    requires n == 0 || n + 2 <= |data|
    ensures |p| <= n
  {
    if n == 0 then [] else Entered(data, h, n - 1) + (if HashAt(data, n - 1) == h then [n - 1] else [])
  }

  lemma EnteredNext(data: seq<Byte>, n: nat)
    requires n + 3 <= |data|
    ensures forall h :: Entered(data, h, n + 1)
                     == Entered(data, h, n) + (if HashAt(data, n) == h then [n] else [])
  {
    hide HashAt;
  }

  lemma {:induction false} EnteredIs(data: seq<Byte>, h: nat, n: nat)
    requires n == 0 || n + 2 <= |data|
    ensures forall i: nat :: i in Entered(data, h, n) <==> i < n && HashAt(data, i) == h
    ensures forall j, k :: 0 <= j < k < |Entered(data, h, n)| ==> Entered(data, h, n)[j] < Entered(data, h, n)[k]
    decreases n
  {
    hide HashAt;
    if n > 0 {
      EnteredIs(data, h, n - 1);
      var p := Entered(data, h, n - 1);
      assert forall j :: 0 <= j < |p| ==> p[j] in p;
    }
  }

  /** After n positions the next one goes into slot n % 16, whose place none of the last 15
      has, and wrapping the counter at 256 keeps this. */
  lemma NextSlot(n: nat)
    ensures n % 256 % POINTERS == n % POINTERS && (n % 256 + 1) % 256 == (n + 1) % 256
    ensures forall j :: 0 <= j < n && j + POINTERS >= n + 1 ==> j % POINTERS != n % POINTERS
  {
    var a, c := n / 256, n % 256;
    DivIs(n, POINTERS, 16 * a + c / 16, c % 16);
    DivIs(n + 1, 256, if c == 255 then a + 1 else a, if c == 255 then 0 else c + 1);
    forall j | 0 <= j < n && j + POINTERS >= n + 1 ensures j % POINTERS != n % POINTERS { SlotsDiffer(j, n); }
  }

  lemma SlotsDiffer(j: nat, n: nat)
    requires j < n < j + POINTERS
    ensures j % POINTERS != n % POINTERS
  {
  }

  /** Where the search looks for matches of the bytes at src: the last 16 positions with
      their hash, or fewer after the counter has wrapped. */
  function Recent(data: seq<Byte>, src: nat): seq<nat>
    requires src + 3 <= |data|
  {
    var p := Entered(data, HashAt(data, src), src);
    p[|p| - Looked(|p|)..]
  }

  function Looked(n: nat): (m: nat)
    ensures m <= n && m <= POINTERS
  {
    if n % 256 < POINTERS then n % 256 else POINTERS
  }

  /** The slots the search looks at hold exactly these positions. */
  lemma SlotsAreRecent(data: seq<Byte>, src: nat, state: CompressState)
    requires src + 3 <= |data| && state.Valid() && state.Holds(data, src)
    ensures forall q :: state.InUse(HashAt(data, src), q) <==> q >= 0 && q in Recent(data, src)
    ensures forall k :: 0 <= k < POINTERS && state.counter[HashAt(data, src)] > k ==>
              var q := state.offset[HashAt(data, src), k]; 0 <= q < src && q in Recent(data, src)
  {
    hide HashAt, Entered, Looked;
    var h, r := HashAt(data, src), Recent(data, src);
    assert state.BucketOk(data, h, src);
    EnteredIs(data, h, src);
    var p := Entered(data, h, src);
    forall q ensures state.InUse(h, q) <==> q >= 0 && q in r { SlotIsRecent(state, h, p, q); }
    forall k | 0 <= k < POINTERS && state.counter[h] > k
      ensures var q := state.offset[h, k]; 0 <= q < src && q in r
    {
      assert state.InUse(h, state.offset[h, k]);
      assert state.offset[h, k] in p;
    }
  }

  lemma SlotIsRecent(state: CompressState, h: nat, p: seq<nat>, q: int)
    requires state.Valid() && h < HASH_VALUES && state.BucketHolds(h, p)
    ensures state.InUse(h, q) <==> q >= 0 && q in p[|p| - Looked(|p|)..]
  {
    hide Looked;
    var first := |p| - Looked(|p|);
    if state.InUse(h, q) {
      var k :| 0 <= k < POINTERS && state.counter[h] > k && state.offset[h, k] == q;
      var j := SlotHolds(|p|, k);
      HeldInSlot(|p|, j);
      assert p[first..][j - first] == p[j];
    }
    if q >= 0 && q in p[first..] {
      var i :| 0 <= i < |p| - first && p[first..][i] == q;
      HeldInSlot(|p|, first + i);
      assert state.offset[h, (first + i) % POINTERS] == q;
    }
  }

  /** Of n positions entered, which one a slot in use holds ... */
  lemma SlotHolds(n: nat, k: nat) returns (j: nat)
    requires k < POINTERS && k < n % 256
    ensures n - Looked(n) <= j < n && j % POINTERS == k
  {
    if n % 256 < POINTERS {
      j := 256 * (n / 256) + k;
      DivIs(j, POINTERS, 16 * (n / 256), k);
    } else {
      var a := (n - 1 - k) / POINTERS;
      j := POINTERS * a + k;
      DivIs(j, POINTERS, a, k);
    }
  }

  /** ... and where one of the last ones is. */
  lemma HeldInSlot(n: nat, j: nat)
    requires n - Looked(n) <= j < n
    ensures j + POINTERS >= n && j % POINTERS < n % 256
  {
    if n % 256 < POINTERS { DivIs(j, POINTERS, 16 * (n / 256), j - 256 * (n / 256)); }
  }

  // ----- which match is chosen

  /** The bytes from q on and those from src on are the same, m of them. */
  predicate Shares(data: seq<Byte>, q: nat, src: nat, m: nat) {
    q <= src && src + m <= |data| && forall i :: src <= i < src + m ==> data[i] == data[i - (src - q)]
  }

  function Remaining(size: nat, src: nat): nat
    requires src + LAST_MATCH_MARGIN <= size
  {
    if size - 4 - src > 255 then 255 else size - 4 - src
  }

  /** A match for the bytes at src that the history offers. */
  predicate Offers(data: seq<Byte>, src: nat, q: nat, len: nat)
    requires src + LAST_MATCH_MARGIN <= |data|
  {
    q in Recent(data, src) && q < src - 2 && 3 <= len <= Remaining(|data|, src) && Shares(data, q, src, len)
  }

  /** No other is longer, nor as long and nearer. */
  ghost predicate BestMatch(data: seq<Byte>, src: nat, q: nat, len: nat)
    requires src + LAST_MATCH_MARGIN <= |data|
  {
    && Offers(data, src, q, len)
    && forall p: nat, m: nat :: Offers(data, src, p, m) ==> m < len || (m == len && p <= q)
  }

  ghost predicate NoMatch(data: seq<Byte>, src: nat)
    requires src + LAST_MATCH_MARGIN <= |data|
  {
    forall q: nat, len: nat :: !Offers(data, src, q, len)
  }

  lemma BestMatchUnique(data: seq<Byte>, src: nat, q: nat, len: nat, q': nat, len': nat)
    requires src + LAST_MATCH_MARGIN <= |data| && BestMatch(data, src, q, len) && BestMatch(data, src, q', len')
    ensures q == q' && len == len'
  {
    hide Offers;
  }

  // ----- the search

  /** Bytes `limit` at most that `o` and `src` have in common, given `m` of them. */
  function CommonLen(data: seq<Byte>, o: nat, src: nat, m: nat, limit: nat): (r: nat)
    requires o < src && m <= limit && src + limit < |data|
    ensures m <= r <= limit
    ensures forall i :: src + m <= i < src + r ==> data[i] == data[i - (src - o)]
    ensures r < limit ==> data[o + r] != data[src + r]
    decreases limit - m
  {
    if m < limit && data[o + m] == data[src + m] then CommonLen(data, o, src, m + 1, limit) else m
  }

  lemma Fetch3Equal(data: seq<Byte>, i: nat, j: nat)
    requires i + 3 <= |data| && j + 3 <= |data|
    ensures Fetch3(data, i) == Fetch3(data, j) <==>
            data[i] == data[j] && data[i + 1] == data[j + 1] && data[i + 2] == data[j + 2]
  {
  }

  /** What a slot value offers: the length of the match it starts, 0 if none. */
  function SlotLen(data: seq<Byte>, q: nat, src: nat, limit: nat): (m: nat)
    requires 3 <= limit && src + limit < |data|
  {
    if q < src - 2 && Shares(data, q, src, 3) then CommonLen(data, q, src, 3, limit) else 0
  }

  /** It is the longest stretch in common, up to the limit. */
  lemma SlotLenIs(data: seq<Byte>, q: nat, src: nat, limit: nat)
    requires 3 <= limit && src + limit < |data|
    ensures var r := SlotLen(data, q, src, limit);
            && (r != 0 ==> 3 <= r <= limit && q < src - 2 && Shares(data, q, src, r))
            && forall m :: 3 <= m <= limit && q < src - 2 && Shares(data, q, src, m) ==> m <= r
  {
    var r := SlotLen(data, q, src, limit);
    forall m | 3 <= m <= limit && q < src - 2 && Shares(data, q, src, m) ensures m <= r {
      assert Shares(data, q, src, 3);
      assert r < limit ==> data[src + r] != data[q + r];
    }
  }

  method TrySlot(data: seq<Byte>, q: nat, src: nat, limit: nat) returns (m: nat)
    requires 3 <= limit && src + limit < |data| && q < src
    ensures m == SlotLen(data, q, src, limit)
  {
    Fetch3Equal(data, q, src);
    m := 0;
    if Fetch3(data, q) == Fetch3(data, src) && q < src - 2 {
      m := 3;
      while data[q + m] == data[src + m] && m < limit
        invariant 3 <= m <= limit
        invariant CommonLen(data, q, src, 3, limit) == CommonLen(data, q, src, m, limit)
      {
        m := m + 1;
      }
    }
  }

  /** No match through q is longer than len, nor as long but nearer than o. */
  predicate NoWorse(data: seq<Byte>, src: nat, limit: nat, len: nat, o: int, q: nat)
    requires 3 <= limit && src + limit < |data|
  {
    var m := SlotLen(data, q, src, limit);
    m == 0 || m < len || (m == len && q <= o)
  }

  ghost predicate Chosen(data: seq<Byte>, src: nat, len: nat, o: int, r: seq<nat>)
    requires src + LAST_MATCH_MARGIN <= |data|
  {
    var limit := Remaining(|data|, src);
    && (len != 0 ==> o >= 0 && o in r && len == SlotLen(data, o, src, limit))
    && forall q :: q in r ==> NoWorse(data, src, limit, len, o, q)
  }

  lemma ChosenIsBest(data: seq<Byte>, src: nat, len: nat, o: int)
    requires src + LAST_MATCH_MARGIN <= |data| && Chosen(data, src, len, o, Recent(data, src))
    ensures if len == 0 then NoMatch(data, src) else o >= 0 && BestMatch(data, src, o, len)
  {
    hide Recent, Shares, CommonLen, SlotLen;
    var limit := Remaining(|data|, src);
    if len != 0 { SlotLenIs(data, o, src, limit); }
    forall p: nat, m: nat | Offers(data, src, p, m) ensures m < len || (m == len && p <= o) {
      SlotLenIs(data, p, src, limit);
      assert NoWorse(data, src, limit, len, o, p);
    }
  }

  /** Search the slots in use of the bucket of src: the longest match among the recent
      positions wins, the nearest among equally long ones. */
  method FindMatch(data: seq<Byte>, src: nat, state: CompressState) returns (matchlen: nat, o: int)
    requires src + LAST_MATCH_MARGIN <= |data|
    requires state.Valid() && state.Holds(data, src)
    ensures if matchlen == 0 then NoMatch(data, src) else 0 <= o < src && BestMatch(data, src, o, matchlen)
  {
    hide Recent, HashAt, Fetch3, CommonLen, SlotLen, state.Holds, Shares;
    SlotsAreRecent(data, src, state);
    var limit := Remaining(|data|, src);
    var hash := HashAt(data, src);
    var c := state.counter[hash];
    ghost var r := Recent(data, src);
    o := state.offset[hash, 0];
    matchlen := 0;
    if o < src - 2 && c > 0 {
      matchlen := TrySlot(data, o, src, limit);
    } else if c > 0 {
      SlotLenIs(data, o, src, limit);
    }
    var k := 1;
    while k < POINTERS && c > k
      invariant 1 <= k <= POINTERS
      invariant matchlen != 0 ==> o >= 0 && o in r && matchlen == SlotLen(data, o, src, limit)
      invariant forall j :: 0 <= j < k && c > j ==> NoWorse(data, src, limit, matchlen, o, state.offset[hash, j])
    {
      var q := state.offset[hash, k];
      var m := TrySlot(data, q, src, limit);
      if m > 0 && (m > matchlen || (m == matchlen && q > o)) {
        o := q;
        matchlen := m;
      }
      k := k + 1;
    }
    forall q | q in r ensures NoWorse(data, src, limit, matchlen, o, q) { assert state.InUse(hash, q); }
    ChosenIsBest(data, src, matchlen, o);
    if matchlen != 0 { BestBefore(data, src, o, matchlen); }
  }

  lemma BestBefore(data: seq<Byte>, src: nat, o: nat, len: nat)
    requires src + LAST_MATCH_MARGIN <= |data| && BestMatch(data, src, o, len)
    ensures o < src - 2 && 3 <= len <= Remaining(|data|, src) && Shares(data, o, src, len)
  {
  }

  // ----- the tokens of an input

  /** The token met at src: the best match, unless there is none or it is too far; then,
      and near the end, a literal. */
  ghost predicate GreedyToken(data: seq<Byte>, src: nat, t: Token) {
    if src + LAST_MATCH_MARGIN <= |data| then
      match t
      case Match(offset, len) => offset <= src && offset <= MAX_OFFSET && BestMatch(data, src, src - offset, len)
      case Lit(b) =>
        b == data[src] && forall q: nat, len: nat :: BestMatch(data, src, q, len) ==> src - q > MAX_OFFSET
    else src < |data| && t == Lit(data[src])
  }

  /** Every token is the one met where those before it end. */
  ghost predicate Greedy(data: seq<Byte>, ts: seq<Token>)
    decreases |ts|
  {
    ts != [] ==>
      var m := |ts| - 1;
      Greedy(data, ts[..m]) && GreedyToken(data, |Expand([], ts[..m])|, ts[m])
  }

  lemma GreedySnoc(data: seq<Byte>, ts: seq<Token>, t: Token)
    requires Greedy(data, ts) && GreedyToken(data, |Expand([], ts)|, t)
    ensures Greedy(data, ts + [t])
  {
    hide GreedyToken, Expand;
    assert (ts + [t])[..|ts|] == ts;
  }

  lemma GreedyTokenUnique(data: seq<Byte>, src: nat, t: Token, u: Token)
    requires GreedyToken(data, src, t) && GreedyToken(data, src, u)
    ensures t == u
  {
    hide Offers;
    if t.Match? && u.Match? && src + LAST_MATCH_MARGIN <= |data| {
      BestMatchUnique(data, src, src - t.offset, t.len, src - u.offset, u.len);
    }
  }

  lemma {:induction false} GreedyFront(data: seq<Byte>, ts: seq<Token>, n: nat)
    requires Greedy(data, ts) && n <= |ts|
    ensures Greedy(data, ts[..n])
    ensures n < |ts| ==> GreedyToken(data, |Expand([], ts[..n])|, ts[n]) && |Expand([], ts[..n])| < |data|
    decreases |ts|
  {
    hide Expand, BestMatch;
    if n < |ts| {
      GreedyFront(data, ts[..|ts| - 1], n);
      assert ts[..|ts| - 1][..n] == ts[..n];
    } else {
      assert ts[..n] == ts;
    }
  }

  /** The input leaves no choice: of two lists of its tokens one continues the other. */
  lemma {:induction false} GreedyAgree(data: seq<Byte>, a: seq<Token>, b: seq<Token>, n: nat)
    requires Greedy(data, a) && Greedy(data, b) && n <= |a| && n <= |b|
    ensures a[..n] == b[..n]
    decreases n
  {
    hide Greedy, GreedyToken, Expand;
    if n > 0 {
      GreedyAgree(data, a, b, n - 1);
      GreedyFront(data, a, n - 1);
      GreedyFront(data, b, n - 1);
      GreedyTokenUnique(data, |Expand([], a[..n - 1])|, a[n - 1], b[n - 1]);
      assert a[..n] == a[..n - 1] + [a[n - 1]] && b[..n] == b[..n - 1] + [b[n - 1]];
    }
  }

  /** So all the tokens of an input are one list, and every list of its first tokens is a
      beginning of it. */
  lemma GreedyUnique(data: seq<Byte>, ts: seq<Token>, g: seq<Token>)
    requires Greedy(data, ts) && |Expand([], ts)| == |data| && Greedy(data, g)
    ensures |g| <= |ts| && g == ts[..|g|]
    ensures |Expand([], g)| == |data| ==> g == ts
  {
    hide Greedy, GreedyToken, Expand;
    var n := if |g| < |ts| then |g| else |ts|;
    GreedyAgree(data, ts, g, n);
    assert ts[..|ts|] == ts && g[..|g|] == g;
    if |g| > |ts| { GreedyFront(data, g, n); }
    if |g| < |ts| { GreedyFront(data, ts, n); }
  }
}

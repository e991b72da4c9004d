/** The serial rehash: which buckets are marked together, and where the nodes of a
    root go when everything pending below it is marked. */
module HashSubtree {
  import opened Arithmetic
  import opened HashTable

  ghost predicate NoSplitting(buckets: seq<Bucket>) {
    forall x :: 0 <= x < |buckets| ==> !buckets[x].Splitting?
  }

  /** `e` is pending and so is everything between it and its ancestor `x`. */
  predicate Under(bk: seq<Bucket>, e: nat, x: nat)
    requires e < |bk|
    decreases e
  {
    2 <= e && x < e && bk[e].Pending? && (ParentSmaller(e); Parent(e) == x || Under(bk, Parent(e), x))
  }

  /** The child of `x` on the way to `e`. */
  function ChildOf(bk: seq<Bucket>, e: nat, x: nat): (c: nat)
    requires e < |bk| && Under(bk, e, x)
    ensures c <= e
    decreases e
  {
    ParentSmaller(e);
    if Parent(e) == x then e else ChildOf(bk, Parent(e), x)
  }

  lemma {:induction false} ChildIs(bk: seq<Bucket>, e: nat, x: nat)
    requires e < |bk| && Under(bk, e, x)
    ensures var c := ChildOf(bk, e, x); 2 <= c && Parent(c) == x && bk[c].Pending? && Under(bk, c, x)
    decreases e
  {
    ParentSmaller(e);
    if Parent(e) != x { ChildIs(bk, Parent(e), x); }
  }

  /** The children of `x` are x + 2^s for every bit s above those of x. */
  lemma ChildBit(x: nat, s: nat)
    requires s >= 1 && x < Pow2(s)
    ensures Log2(x + Pow2(s)) == s && Parent(x + Pow2(s)) == x && x + Pow2(s) >= 2
  {
    Pow2Monotone(1, s);
    Log2Is(x + Pow2(s), s);
    DivIs(x + Pow2(s), Pow2(s), 1, x);
  }

  lemma BitOfChild(c: nat)
    requires c >= 2
    ensures Log2(c) >= 1 && c == Parent(c) + Pow2(Log2(c)) && Parent(c) < Pow2(Log2(c))
  {
    var k := Log2(c);
    assert Pow2(1) == 2;
    DivIs(c, Pow2(k), 1, c - Pow2(k));
  }

  /** The segment holding a bucket index: 0 for the two embedded buckets. */
  function Segment(x: nat): nat { if x <= 1 then 0 else Log2(x) }

  /** segment_index_of: the topmost bit of x | 1. */
  function SegmentIndexOf(x: nat): nat { Log2(x + 1 - x % 2) }

  /** segment_base: 2^k & ~1. */
  function SegmentBase(k: nat): nat { Pow2(k) - Pow2(k) % 2 }

  /** The buckets of a segment; the embedded one has two. */
  function SegmentLength(k: nat): nat { if k == 0 then 2 else Pow2(k) }

  lemma SegmentStart(k: nat)
    ensures SegmentBase(k) == if k == 0 then 0 else Pow2(k)
    ensures SegmentBase(k) + SegmentLength(k) == Pow2(k + 1)
  {
    if k > 0 { assert Pow2(k) == 2 * Pow2(k - 1); }
  }

  /** enable_segment(k): the table grows by the buckets that are allocated, a segment or, at
      first, all of the first block but the two embedded buckets. */
  lemma NewSegments(k: nat)
    requires k == 1 || k >= FIRST_BLOCK
    ensures Pow2(NextBits(k))
         == Pow2(k) + (if k >= FIRST_BLOCK then SegmentLength(k) else Pow2(FIRST_BLOCK) - SegmentLength(0))
  {
  }

  /** get_bucket: every index is in one segment at one offset ... */
  lemma BucketAddress(x: nat)
    ensures SegmentIndexOf(x) == Segment(x)
    ensures SegmentBase(Segment(x)) <= x < SegmentBase(Segment(x)) + SegmentLength(Segment(x))
  {
    var k := Segment(x);
    SegmentStart(k);
    if x > 1 {
      var y := x + 1 - x % 2;
      assert Pow2(k + 1) == 2 * Pow2(k);
      Log2Is(y, k);
    }
  }

  /** ... and every offset of a segment is that of one index, in a table of 2^bits buckets
      exactly if the segment is one of its first `bits`. */
  lemma AddressBucket(k: nat, offset: nat, bits: nat)
    requires offset < SegmentLength(k) && bits >= 1
    ensures Segment(SegmentBase(k) + offset) == k
    ensures SegmentBase(k) + offset < Pow2(bits) <==> k < bits
  {
    SegmentStart(k);
    var x := SegmentBase(k) + offset;
    if k > 0 {
      Pow2Monotone(1, k);
      Log2Is(x, k);
    }
    if k < bits { Pow2Monotone(k + 1, bits); } else { Pow2Monotone(bits, k); }
  }

  /** mark_rehashed_levels: offset x of a segment above the one of x is x's child there. */
  lemma ChildAddress(x: nat, s: nat)
    requires s > Segment(x)
    ensures x < SegmentLength(s) && SegmentBase(s) + x == x + Pow2(s) && Parent(x + Pow2(s)) == x
  {
    AboveSegment(x, s);
    SegmentStart(s);
    ChildBit(x, s);
  }

  lemma SegmentOfChild(c: nat)
    requires c >= 2
    ensures Log2(c) > Segment(Parent(c))
  {
    BitOfChild(c);
    var x := Parent(c);
    if x > 1 && Log2(c) <= Log2(x) { Pow2Monotone(Log2(c), Log2(x)); }
  }

  /** `now` is `bk` with everything under `x` through children below bit `s` marked. */
  ghost predicate Marked(bk: seq<Bucket>, now: seq<Bucket>, x: nat, s: nat) {
    && |now| == |bk|
    && forall e :: 0 <= e < |bk| ==>
         now[e] == (if Under(bk, e, x) && Log2OfChild(bk, e, x) < s then Chain([]) else bk[e])
  }

  function Log2OfChild(bk: seq<Bucket>, e: nat, x: nat): nat
    requires e < |bk| && Under(bk, e, x)
  {
    ChildIs(bk, e, x);
    Log2(ChildOf(bk, e, x))
  }

  lemma MarkedNone(bk: seq<Bucket>, x: nat)
    ensures Marked(bk, bk, x, Segment(x) + 1)
  {
    forall e | 0 <= e < |bk| && Under(bk, e, x) ensures Log2OfChild(bk, e, x) >= Segment(x) + 1 {
      ChildIs(bk, e, x);
      SegmentOfChild(ChildOf(bk, e, x));
    }
  }

  /** Nothing is reached through a child that is not pending. */
  lemma MarkedSkip(bk: seq<Bucket>, now: seq<Bucket>, x: nat, s: nat)
    requires Marked(bk, now, x, s) && s >= 1 && x < Pow2(s)
    requires x + Pow2(s) < |bk| && !bk[x + Pow2(s)].Pending?
    ensures Marked(bk, now, x, s + 1)
  {
    forall e | 0 <= e < |bk| && Under(bk, e, x) ensures Log2OfChild(bk, e, x) != s {
      ChildIs(bk, e, x);
      BitOfChild(ChildOf(bk, e, x));
    }
  }

  /** After marking child `y` of `x`, what is under `y` is what was under `x` through it. */
  lemma {:induction false} UnderChild(bk: seq<Bucket>, before: seq<Bucket>, x: nat, s: nat, e: nat)
    requires Marked(bk, before, x, s) && s >= 1 && x < Pow2(s)
    requires e < |bk| && x + Pow2(s) < |bk| && bk[x + Pow2(s)].Pending?
    ensures var y := x + Pow2(s);
            Under(before[y := Chain([])], e, y) <==> e != y && Under(bk, e, x) && ChildOf(bk, e, x) == y
    decreases e
  {
    var y := x + Pow2(s);
    ChildBit(x, s);
    if 2 <= e && e != y {
      ParentSmaller(e);
      UnderChild(bk, before, x, s, Parent(e));
      assert Under(bk, y, x) && ChildOf(bk, y, x) == y;
      if Under(before[y := Chain([])], e, y) {
        assert bk[e].Pending?;
        assert Under(bk, e, x) && ChildOf(bk, e, x) == y;
      }
      if Under(bk, e, x) && ChildOf(bk, e, x) == y {
        ChildIs(bk, e, x);
        assert Log2OfChild(bk, e, x) == s;
        assert before[e] == bk[e];
        ChildOrder(bk, e, x);
      }
    }
  }

  lemma {:induction false} ChildOrder(bk: seq<Bucket>, e: nat, x: nat)
    requires e < |bk| && Under(bk, e, x)
    ensures || ChildOf(bk, e, x) == e
            || (Parent(e) < |bk| && Under(bk, Parent(e), x) && ChildOf(bk, Parent(e), x) == ChildOf(bk, e, x) < e)
    decreases e
  {
    ParentSmaller(e);
  }

  lemma MarkedChild(bk: seq<Bucket>, before: seq<Bucket>, now: seq<Bucket>, x: nat, s: nat, bits: nat)
    requires Marked(bk, before, x, s) && s >= 1 && x < Pow2(s)
    requires x + Pow2(s) < |bk| == Pow2(bits) && bk[x + Pow2(s)].Pending?
    requires Marked(before[x + Pow2(s) := Chain([])], now, x + Pow2(s), bits)
    ensures Marked(bk, now, x, s + 1)
  {
    hide Under, ChildOf, Log2OfChild, Pow2, Log2, Parent;
    forall e | 0 <= e < |bk|
      ensures now[e] == (if Under(bk, e, x) && Log2OfChild(bk, e, x) < s + 1 then Chain([]) else bk[e])
    {
      MarkedChildAt(bk, before, now, x, s, bits, e);
    }
  }

  lemma MarkedChildAt(bk: seq<Bucket>, before: seq<Bucket>, now: seq<Bucket>, x: nat, s: nat, bits: nat, e: nat)
    requires Marked(bk, before, x, s) && s >= 1 && x < Pow2(s)
    requires x + Pow2(s) < |bk| == Pow2(bits) && bk[x + Pow2(s)].Pending? && e < |bk|
    requires Marked(before[x + Pow2(s) := Chain([])], now, x + Pow2(s), bits)
    ensures now[e] == (if Under(bk, e, x) && Log2OfChild(bk, e, x) < s + 1 then Chain([]) else bk[e])
  {
    hide Under, ChildOf, Log2OfChild, Pow2, Log2, Parent;
    var y := x + Pow2(s);
    var cur := before[y := Chain([])];
    UnderChild(bk, before, x, s, e);
    PendingChild(bk, x, s);
    if Under(bk, e, x) { BranchIs(bk, e, x, s); }
    if Under(cur, e, y) { AllBelow(cur, e, y, bits); }
  }

  lemma PendingChild(bk: seq<Bucket>, x: nat, s: nat)
    requires s >= 1 && x < Pow2(s) && x + Pow2(s) < |bk| && bk[x + Pow2(s)].Pending?
    ensures Under(bk, x + Pow2(s), x) && ChildOf(bk, x + Pow2(s), x) == x + Pow2(s)
  {
    ChildBit(x, s);
  }

  /** The branch is numbered by the topmost bit of the child. */
  lemma BranchIs(bk: seq<Bucket>, e: nat, x: nat, s: nat)
    requires e < |bk| && Under(bk, e, x) && s >= 1 && x < Pow2(s)
    ensures Log2OfChild(bk, e, x) == s <==> ChildOf(bk, e, x) == x + Pow2(s)
  {
    ChildIs(bk, e, x);
    BitOfChild(ChildOf(bk, e, x));
    ChildBit(x, s);
  }

  lemma AllBelow(bk: seq<Bucket>, e: nat, x: nat, bits: nat)
    requires e < |bk| == Pow2(bits) && Under(bk, e, x)
    ensures Log2OfChild(bk, e, x) < bits
  {
    ChildIs(bk, e, x);
    BitsAbove(ChildOf(bk, e, x), bits);
  }

  lemma AboveSegment(x: nat, s: nat)
    requires s > Segment(x)
    ensures s >= 1 && x < Pow2(s)
  {
    if x > 1 { Pow2Monotone(Log2(x) + 1, s); } else { Pow2Monotone(1, s); assert Pow2(1) == 2; }
  }

  lemma SegmentBound(x: nat, bits: nat)
    requires x < Pow2(bits) && bits >= 1
    ensures Segment(x) < bits
  {
    if x > 1 { BitsAbove(x, bits); }
  }

  lemma ChildInTable(x: nat, s: nat, bits: nat)
    requires x < Pow2(s) && s < bits
    ensures x + Pow2(s) < Pow2(bits)
  {
    Pow2Monotone(s, bits);
  }

  lemma UnderPending(bk: seq<Bucket>, e: nat, x: nat)
    requires e < |bk| && Under(bk, e, x)
    ensures bk[e].Pending?
  {
  }

  /** A child whose turn has not come is as it was. */
  lemma ChildUntouched(bk: seq<Bucket>, now: seq<Bucket>, x: nat, s: nat)
    requires Marked(bk, now, x, s) && s >= 1 && x < Pow2(s) && x + Pow2(s) < |bk|
    ensures now[x + Pow2(s)] == bk[x + Pow2(s)]
  {
    hide Under, ChildOf, Log2OfChild, Pow2, Log2, Parent;
    var y := x + Pow2(s);
    if Under(bk, y, x) {
      UnderPending(bk, y, x);
      PendingChild(bk, x, s);
      BranchIs(bk, y, x, s);
    }
  }

  lemma MarkedSize(bk: seq<Bucket>, now: seq<Bucket>, x: nat, s: nat)
    requires Marked(bk, now, x, s)
    ensures |now| == |bk|
  {
  }

  /** Marked down from `h`, with nothing left out. */
  lemma AllMarked(t: Table, now: seq<Bucket>, h: nat)
    requires Shape(t) && Marked(t.buckets, now, h, t.bits)
    requires h < |t.buckets| && t.buckets[h].Chain?
    ensures |now| == |t.buckets| && now[h] == t.buckets[h]
    ensures forall e :: 0 <= e < |now| ==> now[e] == (if Under(t.buckets, e, h) then Chain([]) else t.buckets[e])
  {
    forall e | 0 <= e < |now| && Under(t.buckets, e, h) ensures Log2OfChild(t.buckets, e, h) < t.bits {
      AllBelow(t.buckets, e, h, t.bits);
    }
  }

  /** The final bucket of a node of the root `h` is `h` or under it. */
  lemma FinalUnder(t: Table, hash: Key -> nat, h: nat, n: Node)
    requires Inv(t, hash) && NoSplitting(t.buckets) && h < |t.buckets| && t.buckets[h].Chain?
    requires n in t.buckets[h].nodes && Low(hash(n.key), t.bits) != h
    ensures Low(hash(n.key), t.bits) < |t.buckets| && Under(t.buckets, Low(hash(n.key), t.bits), h)
  {
    NotHere(t, hash(n.key), h);
  }

  /** A pending bucket has a parent and is under it; its ancestors are in the table. */
  lemma RootStart(t: Table, hash: Key -> nat, b: nat)
    requires Inv(t, hash) && b < |t.buckets| && t.buckets[b].Pending?
    ensures b >= 2 && Parent(b) < b && Under(t.buckets, b, Parent(b))
  {
    ParentSmaller(b);
  }

  lemma {:induction false} UnderUp(bk: seq<Bucket>, b: nat, h: nat)
    requires b < |bk| && h < |bk| && Under(bk, b, h) && h >= 2 && bk[h].Pending?
    ensures Under(bk, b, Parent(h))
    decreases b
  {
    ParentSmaller(b);
    ParentSmaller(h);
    if Parent(b) != h { UnderUp(bk, Parent(b), h); }
  }

  /** Once the last segment is rehashed every node is final; and so is every bucket
      unless the last growth was that of an empty table. */
  lemma LastSegmentReady(t: Table, hash: Key -> nat)
    requires Inv(t, hash)
    requires forall x :: Pow2(t.bits) / 2 <= x < Pow2(t.bits) ==> t.buckets[x].Chain?
    ensures t.floor < t.bits ==> forall b :: 0 <= b < |t.buckets| ==> t.buckets[b].Chain?
    ensures Final(t, hash)
  {
    hide Parent, Final, Placed, Home, Low;
    if t.floor < t.bits {
      forall b | 0 <= b < |t.buckets| ensures t.buckets[b].Chain? {
        var half := t.bits - 1;
        assert Pow2(t.bits) == 2 * Pow2(half);
        if b < Pow2(half) && b >= 2 {
          Pow2AtLeast(half, b);
          Pow2Monotone(t.floor, half);
          ChildBit(b, half);
        }
      }
      AllFinal(t, hash);
    }
  }

  lemma AllFinal(t: Table, hash: Key -> nat)
    requires Shape(t) && Placed(t, hash) && forall b :: 0 <= b < |t.buckets| ==> t.buckets[b].Chain?
    ensures Final(t, hash)
  {
    hide Home, Low, DistinctKeys;
    forall b, n | 0 <= b < |t.buckets| && n in t.buckets[b].nodes ensures b == Low(hash(n.key), t.bits) {
      InRange(hash(n.key), t.bits);
      HomeHere(t, hash(n.key), t.bits);
    }
  }

  lemma InRange(h: nat, k: nat)
    ensures Low(h, k) < Pow2(k)
  {
  }

  lemma Pow2AtLeast(k: nat, b: nat)
    requires 2 <= b < Pow2(k)
    ensures k >= 1
  {
  }

  // ----- homes below a root

  lemma {:induction false} UnderIffHome(t: Table, c: nat, k: nat, h: nat)
    requires Shape(t) && NoSplitting(t.buckets) && 1 <= k <= t.bits && Pow2(k) <= |t.buckets|
    requires h < |t.buckets| && t.buckets[h].Chain? && !t.buckets[Low(c, k)].Chain?
    ensures Under(t.buckets, Low(c, k), h) <==> Home(t, c, k) == h
    decreases k
  {
    var e := Low(c, k);
    assert k > 1 by { assert Pow2(1) == 2; }
    assert e >= 2;
    Pow2Less(k);
    PathStep(c, k - 1);
    ParentSmaller(e);
    var p := Low(c, k - 1);
    if p == e {
      UnderIffHome(t, c, k - 1, h);
    } else if t.buckets[p].Chain? {
      HomeHere(t, c, k - 1);
    } else {
      UnderIffHome(t, c, k - 1, h);
    }
  }

  /** Marking everything under `h` gives the codes that lived in `h` their final bucket
      and moves no others. */
  lemma {:induction false} HomeAfterMark(t: Table, t': Table, h: nat, c: nat, k: nat)
    requires Shape(t) && NoSplitting(t.buckets) && 1 <= k <= t.bits && Pow2(k) <= |t.buckets| == |t'.buckets|
    requires h < |t.buckets| && t.buckets[h].Chain?
    requires forall e :: 0 <= e < |t.buckets| ==>
          (t'.buckets[e].Chain? <==> t.buckets[e].Chain? || Under(t.buckets, e, h))
    ensures Home(t', c, k) == (if Home(t, c, k) == h then Low(c, k) else Home(t, c, k))
    decreases k
  {
    if k > 1 && !t.buckets[Low(c, k)].Chain? {
      UnderIffHome(t, c, k, h);
      Pow2Less(k);
      HomeAfterMark(t, t', h, c, k - 1);
    }
  }

  function Stay(nodes: seq<Node>, hash: Key -> nat, h: nat, k: nat): seq<Node> {
    if nodes == [] then []
    else if Low(hash(nodes[0].key), k) == h then [nodes[0]] + Stay(nodes[1..], hash, h, k)
    else Stay(nodes[1..], hash, h, k)
  }

  lemma {:induction false} StayMembers(nodes: seq<Node>, hash: Key -> nat, h: nat, k: nat)
    ensures forall n :: n in Stay(nodes, hash, h, k) <==> n in nodes && Low(hash(n.key), k) == h
    decreases |nodes|
  {
    if nodes != [] {
      StayMembers(nodes[1..], hash, h, k);
      hide Low;
      assert forall n :: n in nodes <==> n == nodes[0] || n in nodes[1..];
    }
  }

  lemma {:induction false} StayDistinct(nodes: seq<Node>, hash: Key -> nat, h: nat, k: nat)
    requires DistinctKeys(nodes)
    ensures DistinctKeys(Stay(nodes, hash, h, k))
    decreases |nodes|
  {
    if nodes != [] {
      hide DistinctKeys, Low;
      TailDistinct(nodes);
      StayDistinct(nodes[1..], hash, h, k);
      StayMembers(nodes[1..], hash, h, k);
      ConsDistinct(nodes[0], Stay(nodes[1..], hash, h, k));
    } else {
      NoneDistinct();
    }
  }

  /** `t'` is `t` with everything under the root `h` rehashed and h's nodes spread. */
  ghost predicate Spread(t: Table, t': Table, hash: Key -> nat, h: nat)
    requires h < |t.buckets| && t.buckets[h].Chain?
  {
    && t'.bits == t.bits && t'.floor == t.floor && |t'.buckets| == |t.buckets|
    && forall e :: 0 <= e < |t.buckets| ==>
         t'.buckets[e] ==
           (if e == h then Chain(Stay(t.buckets[h].nodes, hash, h, t.bits))
            else if Under(t.buckets, e, h) then Chain(Moved(t.buckets[h].nodes, hash, e, t.bits))
            else t.buckets[e])
  }

  lemma SpreadKeeps(t: Table, t': Table, hash: Key -> nat, h: nat)
    requires Inv(t, hash) && NoSplitting(t.buckets) && h < |t.buckets| && t.buckets[h].Chain?
    requires Spread(t, t', hash, h)
    ensures Inv(t', hash) && NoSplitting(t'.buckets)
    ensures forall q :: Get(t', hash, q) == Get(t, hash, q)
    ensures forall e :: 0 <= e < |t.buckets| && t.buckets[e].Chain? ==> t'.buckets[e].Chain?
    ensures forall e :: 0 <= e < |t.buckets| && Under(t.buckets, e, h) ==> t'.buckets[e].Chain?
  {
    var nodes := t.buckets[h].nodes;
    hide Home, Low, Search, DistinctKeys, Moved, Stay, Under, Final;
    forall c: nat
        ensures Home(t', c, t.bits) == (if Home(t, c, t.bits) == h then Low(c, t.bits) else Home(t, c, t.bits)) {
      HomeAfterMark(t, t', h, c, t.bits);
    }
    StayMembers(nodes, hash, h, t.bits);
    StayDistinct(nodes, hash, h, t.bits);
    forall e ensures DistinctKeys(Moved(nodes, hash, e, t.bits)) {
      SplitDistinct(nodes, hash, e, t.bits);
    }
    forall e, n ensures n in Moved(nodes, hash, e, t.bits) <==> n in nodes && Low(hash(n.key), t.bits) == e {
      SplitMembers(nodes, hash, e, t.bits);
    }
    SpreadPlaced(t, t', hash, h);
    SpreadFinal(t, t', hash, h);
    SpreadParents(t, t', hash, h);
    forall q ensures Get(t', hash, q) == Get(t, hash, q) {
      SpreadGet(t, t', hash, h, q);
    }
  }

  lemma SpreadPlaced(t: Table, t': Table, hash: Key -> nat, h: nat)
    requires Inv(t, hash) && NoSplitting(t.buckets) && h < |t.buckets| && t.buckets[h].Chain?
    requires Spread(t, t', hash, h)
    ensures Shape(t') && Placed(t', hash)
  {
    var nodes := t.buckets[h].nodes;
    hide Home, Low, Search, DistinctKeys, Moved, Stay, Under, ParentsReady, Final;
    StayMembers(nodes, hash, h, t.bits);
    StayDistinct(nodes, hash, h, t.bits);
    forall b | 0 <= b < |t'.buckets| && t'.buckets[b].Chain?
      ensures DistinctKeys(t'.buckets[b].nodes)
      ensures forall n :: n in t'.buckets[b].nodes ==> Home(t', hash(n.key), t'.bits) == b
    {
      SplitDistinct(nodes, hash, b, t.bits);
      SplitMembers(nodes, hash, b, t.bits);
      forall n | n in t'.buckets[b].nodes ensures Home(t', hash(n.key), t'.bits) == b {
        HomeAfterMark(t, t', h, hash(n.key), t.bits);
      }
    }
  }

  lemma SpreadFinal(t: Table, t': Table, hash: Key -> nat, h: nat)
    requires Shape(t) && h < |t.buckets| && t.buckets[h].Chain? && Spread(t, t', hash, h)
    ensures Final(t, hash) ==> Final(t', hash)
  {
    var nodes := t.buckets[h].nodes;
    hide Low, Moved, Stay, Under;
    StayMembers(nodes, hash, h, t.bits);
    forall e, n | 0 <= e < |t'.buckets| && Final(t, hash) && t'.buckets[e].Chain? && n in t'.buckets[e].nodes
      ensures Low(hash(n.key), t.bits) == e
    {
      SplitMembers(nodes, hash, e, t.bits);
    }
  }

  lemma SpreadParents(t: Table, t': Table, hash: Key -> nat, h: nat)
    requires Inv(t, hash) && h < |t.buckets| && t.buckets[h].Chain?
    requires Spread(t, t', hash, h) && Shape(t')
    ensures ParentsReady(t')
  {
    hide Parent, Moved, Stay, Placed, Final;
    forall b | 2 <= b < |t'.buckets| && Pow2(t.floor) <= b && t'.buckets[b].Chain?
      ensures Parent(b) < |t'.buckets| && t'.buckets[Parent(b)].Chain?
    {
      ParentSmaller(b);
    }
  }

  lemma SpreadGet(t: Table, t': Table, hash: Key -> nat, h: nat, q: Key)
    requires Inv(t, hash) && NoSplitting(t.buckets) && h < |t.buckets| && t.buckets[h].Chain?
    requires Spread(t, t', hash, h) && Shape(t')
    ensures Get(t', hash, q) == Get(t, hash, q)
  {
    var nodes, f := t.buckets[h].nodes, Low(hash(q), t.bits);
    hide Home, Low, Search, DistinctKeys, Moved, Stay, Under, ParentsReady, Final;
    HomeAfterMark(t, t', h, hash(q), t.bits);
    if Home(t, hash(q), t.bits) == h {
      if f == h {
        StayMembers(nodes, hash, h, t.bits);
        StayDistinct(nodes, hash, h, t.bits);
        PartSearch(nodes, Stay(nodes, hash, h, t.bits), q);
      } else {
        NotHere(t, hash(q), h);
        SplitMembers(nodes, hash, f, t.bits);
        SplitDistinct(nodes, hash, f, t.bits);
        PartSearch(nodes, Moved(nodes, hash, f, t.bits), q);
      }
    } else {
      HomeReady(t, hash(q), t.bits);
      HomeUnder(t, hash(q), h);
    }
  }

  /** A code that lives in `h` but does not end there ends in a bucket under `h`. */
  lemma NotHere(t: Table, c: nat, h: nat)
    requires Shape(t) && NoSplitting(t.buckets) && h < |t.buckets| && t.buckets[h].Chain?
    requires Home(t, c, t.bits) == h && Low(c, t.bits) != h
    ensures Low(c, t.bits) < |t.buckets| && Under(t.buckets, Low(c, t.bits), h)
  {
    if t.buckets[Low(c, t.bits)].Chain? { HomeHere(t, c, t.bits); }
    UnderIffHome(t, c, t.bits, h);
  }

  lemma HomeUnder(t: Table, c: nat, h: nat)
    requires Shape(t)
    ensures Home(t, c, t.bits) < |t.buckets| && !Under(t.buckets, Home(t, c, t.bits), h)
  {
    HomeReady(t, c, t.bits);
  }

  // ----- reserve

  /** The code that continues `b` by one bit beyond the table. */
  lemma CodeBeyond(b: nat, bits: nat, more: nat)
    requires 2 <= b < Pow2(bits) && bits < more
    ensures 1 <= Log2(b) < bits && Parent(b) < b && b + Pow2(bits) < Pow2(more)
    ensures var h := b + Pow2(bits); Low(h, more) == h && Low(h, Log2(b)) == Parent(b) && Low(h, Log2(b) + 1) == b
  {
    hide Log2, Pow2, Low, Parent;
    BitsAbove(b, bits);
    BitOfChild(b);
    ParentSmaller(b);
    Pow2Monotone(bits, more);
    LowSmall(b + Pow2(bits), more);
    LowOfSum(b, bits, Log2(b));
    LowOfSum(b, bits, Log2(b) + 1);
    LowAll(b);
  }

  lemma LowAll(b: nat)
    requires b > 0
    ensures Low(b, Log2(b) + 1) == b && Low(b, Log2(b)) == Parent(b)
  {
    LowSmall(b, Log2(b) + 1);
  }

  lemma LowOfSum(b: nat, bits: nat, k: nat)
    requires b < Pow2(bits) && k <= bits
    ensures Low(b + Pow2(bits), k) == Low(b, k)
  {
    DivIs(b + Pow2(bits), Pow2(bits), 1, b);
    LowLow(b + Pow2(bits), k, bits);
    LowSmall(b, bits);
  }

  /** Why growth of an empty table must not be concurrent with anything: if bucket `b` was
      pending, a search that still has the mask below b's top bit misses a key inserted
      afterwards whose code leads to the new bucket above `b`. */
  lemma OlderMaskMisses(t: Table, hash: Key -> nat, b: nat, key: Key, val: Value)
    requires Inv(t, hash) && Empty(t.buckets) && 2 <= b < |t.buckets| && t.buckets[b].Pending?
    requires Parent(b) < |t.buckets| && t.buckets[Parent(b)].Chain? && hash(key) == b + Pow2(t.bits)
    ensures var t1 := Fire(t, hash, GrowEmpty);
            && Enabled(t1, hash, Insert(key, val, t1.bits))
            && OldMaskMisses(Fire(t1, hash, Insert(key, val, t1.bits)), hash, key, val, Log2(b))
  {
    hide Inv, Low, Log2, Pow2, Parent, FirstChild, Home, Get;
    SizeOf(t, hash);
    var t1 := Fire(t, hash, GrowEmpty);
    var h := hash(key);
    CodeBeyond(b, t.bits, t1.bits);
    GrownSize(t, hash);
    var t2 := Fire(t1, hash, Insert(key, val, t1.bits));
    FirstChildHere(h, Log2(b), t1.bits);
    KeepGrowEmpty(t, hash);
    KeepInsert(t1, hash, key, val, t1.bits);
  }

  /** The key is there, but a search with this mask, older than the last growth of the
      empty table, says it is not. */
  ghost predicate OldMaskMisses(t: Table, hash: Key -> nat, key: Key, val: Value, j: nat) {
    && Shape(t) && Get(t, hash, key) == Some(val)
    && 1 <= j < t.floor && Low(hash(key), j) < |t.buckets| && t.buckets[Low(hash(key), j)].Chain?
    && LookupRound(t, hash, key, j) == NotFound
  }

  lemma SizeOf(t: Table, hash: Key -> nat)
    requires Inv(t, hash)
    ensures Shape(t)
  {
  }

  lemma GrownSize(t: Table, hash: Key -> nat)
    requires Shape(t) && Empty(t.buckets)
    ensures var t' := Fire(t, hash, GrowEmpty); |t'.buckets| == Pow2(t'.bits)
  {
    Pow2Monotone(t.bits, NextBits(t.bits));
  }

  lemma FirstChildHere(h: nat, p: nat, bits: nat)
    requires p < bits && Low(h, p) != Low(h, p + 1) && Low(h, p) != Low(h, bits)
    ensures FirstChild(h, p, bits) == Low(h, p + 1)
  {
  }
}

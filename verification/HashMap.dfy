/** The container itself, updated in place by one thread at a time: lazy splitting on
    access, the operations with masks that may be out of date, growth, and the serial
    rehash that splits everything that is still pending. */
module HashMap {
  import opened Arithmetic
  import opened HashTable
  import opened HashSubtree

  /** The number of nodes in all buckets. */
  function Total(buckets: seq<Bucket>): nat {
    if buckets == [] then 0
    else (if buckets[0].Chain? then |buckets[0].nodes| else 0) + Total(buckets[1..])
  }

  function Length(b: Bucket): nat { if b.Chain? then |b.nodes| else 0 }

  lemma {:induction false} TotalUpdate(buckets: seq<Bucket>, i: nat, b: Bucket)
    requires i < |buckets|
    ensures Total(buckets[i := b]) == Total(buckets) - Length(buckets[i]) + Length(b)
    ensures Total(buckets) >= Length(buckets[i])
    decreases |buckets|
  {
    if i > 0 {
      TotalUpdate(buckets[1..], i - 1, b);
      assert buckets[i := b][1..] == buckets[1..][i - 1 := b];
    } else {
      assert buckets[i := b][1..] == buckets[1..];
    }
  }

  lemma {:induction false} TotalAppend(a: seq<Bucket>, b: seq<Bucket>)
    ensures Total(a + b) == Total(a) + Total(b)
    decreases |a|
  {
    if a == [] {
      assert a + b == b;
    } else {
      assert (a + b)[1..] == a[1..] + b;
      TotalAppend(a[1..], b);
    }
  }

  lemma {:induction false} TotalEmpty(buckets: seq<Bucket>)
    requires forall x :: 0 <= x < |buckets| ==> Length(buckets[x]) == 0
    ensures Total(buckets) == 0
    decreases |buckets|
  {
    if buckets != [] { TotalEmpty(buckets[1..]); }
  }

  lemma NoneEmpty(buckets: seq<Bucket>)
    requires Total(buckets) == 0
    ensures Empty(buckets)
  {
    hide Total;
    forall x | 0 <= x < |buckets| && buckets[x].Chain? ensures buckets[x].nodes == [] {
      TotalUpdate(buckets, x, Pending);
    }
  }

  /** The first size of the table, from 2^bits on, that has n buckets. */
  function BitsFor(bits: nat, n: nat): (r: nat)
    ensures n <= Pow2(r) && bits <= r
    decreases n - Pow2(bits)
  {
    if n <= Pow2(bits) then bits else Pow2Monotone(bits, NextBits(bits)); BitsFor(NextBits(bits), n)
  }

  lemma {:induction false} SplitLengths(nodes: seq<Node>, hash: Key -> nat, b: nat, k: nat)
    ensures |Moved(nodes, hash, b, k)| + |Kept(nodes, hash, b, k)| == |nodes|
    decreases |nodes|
  {
    if nodes != [] { SplitLengths(nodes[1..], hash, b, k); }
  }

  lemma {:induction false} UnlinkLength(nodes: seq<Node>, key: Key)
    requires Search(nodes, key).Some?
    ensures |Unlink(nodes, key)| == |nodes| - 1
    decreases |nodes|
  {
    if nodes[0].key != key { UnlinkLength(nodes[1..], key); }
  }

  lemma SplitTotal(t: Table, hash: Key -> nat, b: nat)
    requires Enabled(t, hash, FinishSplit(b))
    ensures Total(Fire(t, hash, FinishSplit(b)).buckets) == Total(t.buckets)
  {
    var p, k := Parent(b), Log2(b) + 1;
    var nodes := t.buckets[p].nodes;
    ParentSmaller(b);
    SplitLengths(nodes, hash, b, k);
    hide Total, Moved, Kept;
    TotalUpdate(t.buckets, p, Chain(Kept(nodes, hash, b, k)));
    TotalUpdate(t.buckets[p := Chain(Kept(nodes, hash, b, k))], b, Chain(Moved(nodes, hash, b, k)));
  }

  class ConcurrentHashMap {
    const hash: Key -> nat
    var bits: nat
    var buckets: seq<Bucket>
    var size: nat
    var floor: nat  // not in the source, see Table

    function View(): Table
      reads this
    {
      Table(bits, buckets, floor)
    }

    /** Well-formed, with no split in progress, and counted right. */
    ghost predicate Valid()
      reads this
    {
      Inv(View(), hash) && NoSplitting(buckets) && size == Total(buckets)
    }

    constructor (hash: Key -> nat)
      ensures Valid() && this.hash == hash
      ensures forall q :: Get(View(), hash, q) == None
    {
      this.hash := hash;
      bits, buckets, size, floor := 1, [Chain([]), Chain([])], 0, 0;
      new;
      InitialInv(View(), hash);
      assert buckets[1..] == [Chain([])];
    }

    /** rehash_bucket's walk over the parent's list: a node that belongs to the new
        bucket is unlinked and pushed to its front. */
    method SplitList(nodes: seq<Node>, b: nat, k: nat) returns (kept: seq<Node>, moved: seq<Node>)
      ensures kept == Kept(nodes, hash, b, k) && moved == Moved(nodes, hash, b, k)
    {
      kept, moved := [], [];
      var i := 0;
      while i < |nodes|
        invariant i <= |nodes|
        invariant kept + Kept(nodes[i..], hash, b, k) == Kept(nodes, hash, b, k)
        invariant Moved(nodes[i..], hash, b, k) + moved == Moved(nodes, hash, b, k)
      {
        assert nodes[i..][1..] == nodes[i + 1..];
        if Low(hash(nodes[i].key), k) == b {
          moved := [nodes[i]] + moved;
        } else {
          kept := kept + [nodes[i]];
        }
        i := i + 1;
      }
    }

    /** bucket_accessor::acquire with rehash_bucket: a pending bucket is marked, its
        parent is acquired the same way, and its nodes are moved over. */
    method Acquire(b: nat)
      requires Inv(View(), hash) && b < |buckets|
      requires forall x :: 0 <= x <= b ==> !buckets[x].Splitting?
      modifies this`buckets
      ensures Inv(View(), hash) && |buckets| == |old(buckets)| && buckets[b].Chain?
      ensures forall x :: 0 <= x <= b ==> !buckets[x].Splitting?
      ensures forall x :: b < x < |buckets| ==> buckets[x] == old(buckets)[x]
      ensures forall q :: Get(View(), hash, q) == Get(old(View()), hash, q)
      ensures Total(buckets) == Total(old(buckets))
      decreases b
    {
      hide Get, Home, Placed, ParentsReady, Total, Low, Moved, Kept;
      if buckets[b].Pending? {
        KeepStartSplit(View(), hash, b);
        TotalUpdate(buckets, b, Splitting);
        ParentSmaller(b);
        buckets := buckets[b := Splitting];
        var p := Parent(b);
        Acquire(p);
        assert buckets[b].Splitting?;
        KeepFinishSplit(View(), hash, b);
        SplitTotal(View(), hash, b);
        ghost var t := View();
        var kept, moved := SplitList(buckets[p].nodes, b, Log2(b) + 1);
        buckets := buckets[p := Chain(kept)][b := Chain(moved)];
        assert View() == Fire(t, hash, FinishSplit(b));
      }
    }

    /** Acquire, seen from an operation. */
    method Access(b: nat)
      requires Valid() && b < |buckets|
      modifies this`buckets
      ensures Valid() && |buckets| == |old(buckets)| && buckets[b].Chain?
      ensures forall q :: Get(View(), hash, q) == Get(old(View()), hash, q)
    {
      hide Inv, Get, Total;
      Acquire(b);
      assert NoSplitting(buckets);
    }

    /** find, with a mask 2^j - 1 that may be older than the table. */
    method Find(key: Key, j: nat) returns (r: Option<Value>)
      requires Valid() && 1 <= j && floor <= j <= bits
      modifies this`buckets
      ensures Valid() && forall q :: Get(View(), hash, q) == Get(old(View()), hash, q)
      ensures r == Get(old(View()), hash, key)
    {
      hide Get, Total, Home, Placed, ParentsReady, Low;
      var m := j;
      while true
        invariant Valid() && 1 <= m && floor <= m <= bits
        invariant forall q :: Get(View(), hash, q) == Get(old(View()), hash, q)
        decreases bits - m
      {
        Pow2Monotone(m, bits);
        Access(Low(hash(key), m));
        LookupCorrect(View(), hash, key, m);
        r := Search(buckets[Low(hash(key), m)].nodes, key);
        if r.Some? || !Collides(View(), hash(key), m) {
          return;
        }
        m := bits;
      }
    }

    /** enable_segment: the new buckets are published as pending, or as rehashed if the
        table is empty and nothing else is going on. */
    method EnableSegment(isInitial: bool)
      requires Valid() && (isInitial ==> size == 0)
      modifies this`bits, this`buckets, this`floor
      ensures Valid() && bits == NextBits(old(bits)) && floor == (if isInitial then bits else old(floor))
      ensures forall q :: Get(View(), hash, q) == Get(old(View()), hash, q)
    {
      hide Get, Total, Home, Placed, ParentsReady, Final;
      var more := Copies(Pow2(NextBits(bits)) - Pow2(bits), if isInitial then Chain([]) else Pending);
      TotalEmpty(more);
      TotalAppend(buckets, more);
      if isInitial {
        NoneEmpty(buckets);
        KeepGrowEmpty(View(), hash);
        floor := NextBits(bits);
      } else {
        KeepGrow(View(), hash);
      }
      bits, buckets := NextBits(bits), buckets + more;
    }

    /** reserve, which nothing else may be concurrent with: the table grows until it has
        n buckets. */
    method Reserve(n: nat)
      requires Valid()
      modifies this`bits, this`buckets, this`floor
      ensures Valid() && bits == BitsFor(old(bits), n)
      ensures forall q :: Get(View(), hash, q) == Get(old(View()), hash, q)
    {
      hide Get, Placed, ParentsReady, Final, Home, Total;
      if n == 0 { return; }
      var isInitial := size == 0;
      while n - 1 > Pow2(bits) - 1
        invariant Valid() && BitsFor(bits, n) == BitsFor(old(bits), n)
        invariant forall q :: Get(View(), hash, q) == Get(old(View()), hash, q)
        decreases n - Pow2(bits)
      {
        Pow2Monotone(bits, NextBits(bits));
        EnableSegment(isInitial);
      }
    }

    /** insert: false if the key is present; otherwise the node goes in front of its
        bucket, and the table grows once it holds as many nodes as the mask says. */
    method Insert(key: Key, val: Value, j: nat) returns (inserted: bool)
      requires Valid() && 1 <= j && floor <= j <= bits
      modifies this
      ensures Valid()
      ensures inserted <==> Get(old(View()), hash, key) == None
      ensures forall q :: Get(View(), hash, q) ==
                (if inserted && q == key then Some(val) else Get(old(View()), hash, q))
      ensures size == old(size) + (if inserted then 1 else 0)
      ensures floor == old(floor)
      ensures bits == (if inserted && size >= Pow2(old(bits)) - 1 then NextBits(old(bits)) else old(bits))
    {
      hide Get, Total, Home, Placed, ParentsReady, Low;
      var m := j;
      while true
        invariant Valid() && 1 <= m && floor == old(floor) <= m <= bits == old(bits) && size == old(size)
        invariant forall q :: Get(View(), hash, q) == Get(old(View()), hash, q)
        decreases bits - m
      {
        Pow2Monotone(m, bits);
        var b := Low(hash(key), m);
        Access(b);
        LookupCorrect(View(), hash, key, m);
        if Search(buckets[b].nodes, key).Some? {
          return false;
        }
        if !Collides(View(), hash(key), m) {
          KeepInsert(View(), hash, key, val, m);
          TotalUpdate(buckets, b, Chain([Node(key, val)] + buckets[b].nodes));
          ghost var t := View();
          size := size + 1;
          buckets := buckets[b := Chain([Node(key, val)] + buckets[b].nodes)];
          assert View() == Fire(t, hash, HashTable.Insert(key, val, m));
          if size >= Pow2(bits) - 1 {
            EnableSegment(false);
          }
          return true;
        }
        m := bits;
      }
    }

    /** erase: false if the key is absent; otherwise exactly its node is unlinked. */
    method Erase(key: Key, j: nat) returns (erased: bool)
      requires Valid() && 1 <= j && floor <= j <= bits
      modifies this
      ensures Valid() && bits == old(bits) && floor == old(floor)
      ensures erased <==> Get(old(View()), hash, key).Some?
      ensures forall q :: Get(View(), hash, q) == (if q == key then None else Get(old(View()), hash, q))
      ensures size == old(size) - (if erased then 1 else 0)
    {
      hide Get, Total, Home, Placed, ParentsReady, Low;
      var m := j;
      while true
        invariant Valid() && 1 <= m && floor == old(floor) <= m <= bits == old(bits) && size == old(size)
        invariant forall q :: Get(View(), hash, q) == Get(old(View()), hash, q)
        decreases bits - m
      {
        Pow2Monotone(m, bits);
        var b := Low(hash(key), m);
        Access(b);
        LookupCorrect(View(), hash, key, m);
        if Search(buckets[b].nodes, key).Some? {
          KeepErase(View(), hash, key, m);
          UnlinkLength(buckets[b].nodes, key);
          TotalUpdate(buckets, b, Chain(Unlink(buckets[b].nodes, key)));
          ghost var t := View();
          buckets := buckets[b := Chain(Unlink(buckets[b].nodes, key))];
          assert View() == Fire(t, hash, HashTable.Erase(key, m));
          size := size - 1;
          return true;
        }
        if !Collides(View(), hash(key), m) {
          return false;
        }
        m := bits;
      }
    }

    /** mark_rehashed_levels: mark every pending bucket under `x` that is reached
        through pending buckets only. */
    method MarkRehashedLevels(x: nat)
      requires |buckets| == Pow2(bits) && x < |buckets| && bits >= 1
      modifies this`buckets
      ensures Marked(old(buckets), buckets, x, bits)
      decreases |buckets| - x
    {
      hide Marked, Under, Log2OfChild;
      ghost var bk := buckets;
      MarkedNone(bk, x);
      var s := Segment(x) + 1;
      SegmentBound(x, bits);
      while s < bits
        invariant Segment(x) < s <= bits && |buckets| == |bk|
        invariant Marked(bk, buckets, x, s)
      {
        AboveSegment(x, s);
        ChildInTable(x, s, bits);
        ChildUntouched(bk, buckets, x, s);
        var y := x + Pow2(s);
        if buckets[y].Pending? {
          ghost var before := buckets;
          buckets := buckets[y := Chain([])];
          MarkRehashedLevels(y);
          MarkedSize(before[y := Chain([])], buckets, y, bits);
          MarkedChild(bk, before, buckets, x, s, bits);
        } else {
          MarkedSkip(bk, buckets, x, s);
        }
        s := s + 1;
      }
    }

    /** The loop of rehash over the root's list: a node whose final bucket is another
        one is unlinked and pushed there. */
    method SpreadNodes(h: nat, ghost t: Table)
      requires Inv(t, hash) && NoSplitting(t.buckets) && bits == t.bits && floor == t.floor
      requires h < |t.buckets| && t.buckets[h].Chain?
      requires Marked(t.buckets, buckets, h, bits)
      modifies this`buckets
      ensures Spread(t, View(), hash, h)
      ensures Total(buckets) == Total(old(buckets))
    {
      SpreadBegins(t, buckets, hash, h);
      hide *;
      var rest := buckets[h].nodes;
      var kept := [];
      ghost var total := Total(buckets);
      while rest != []
        invariant SpreadLoop(t, buckets, hash, h, rest, kept, total)
        decreases |rest|
      {
        var n := rest[0];
        var f := Low(hash(n.key), bits);
        if f != h {
          MoveStep(t, buckets, hash, h, rest, kept, total);
          buckets := buckets[h := Chain(kept + rest[1..])][f := Chain([n] + buckets[f].nodes)];
        } else {
          StayStep(t, buckets, hash, h, rest, kept, total);
          kept := kept + [n];
        }
        rest := rest[1..];
      }
      SpreadEnds(t, buckets, hash, h, kept, total);
    }

    /** Climb to the nearest rehashed ancestor. */
    method FindRoot(b: nat) returns (h: nat)
      requires Inv(View(), hash) && NoSplitting(buckets) && b < |buckets| && buckets[b].Pending?
      ensures h < |buckets| && buckets[h].Chain? && Under(buckets, b, h)
    {
      hide Inv, Under, Parent;
      RootStart(View(), hash, b);
      h := Parent(b);
      while buckets[h].Pending?
        invariant h < |buckets| && Under(buckets, b, h)
        decreases h
      {
        RootStart(View(), hash, h);
        UnderUp(buckets, b, h);
        h := Parent(h);
      }
    }

    /** rehash: grow to n buckets, and split everything in the last segment that is still
        pending. Afterwards every node is in the bucket of its full index, and every bucket
        is rehashed unless the table last grew while it was empty. */
    method Rehash(n: nat)
      requires Valid()
      modifies this`bits, this`buckets, this`floor
      ensures Valid() && bits == BitsFor(old(bits), n)
      ensures forall q :: Get(View(), hash, q) == Get(old(View()), hash, q)
      ensures Final(View(), hash)
      ensures floor < bits ==> forall b :: 0 <= b < |buckets| ==> buckets[b].Chain?
    {
      hide Get, Total, Home, Placed, ParentsReady, Low, Under, Final;
      Reserve(n);
      var b := Pow2(bits) / 2;
      ghost var first, size0, floor0 := b, |buckets|, floor;
      while b < |buckets|
        invariant Valid() && |buckets| == size0 && bits == BitsFor(old(bits), n) && floor == floor0
        invariant forall q :: Get(View(), hash, q) == Get(old(View()), hash, q)
        invariant forall x :: first <= x < b ==> x < |buckets| && buckets[x].Chain?
        decreases |buckets| - b
      {
        if buckets[b].Pending? {
          var h := FindRoot(b);
          ghost var t := View();
          MarkRehashedLevels(h);
          MarkedTotal(t, buckets, h);
          SpreadNodes(h, t);
          SpreadKeeps(t, View(), hash, h);
        }
        b := b + 1;
      }
      LastSegmentReady(View(), hash);
    }
  }

  /** The state of the loop of SpreadNodes with `rest` of the root's list to go. */
  ghost predicate Spreading(t: Table, now: seq<Bucket>, hash: Key -> nat, h: nat, rest: seq<Node>, kept: seq<Node>)
    requires h < |t.buckets| && t.buckets[h].Chain?
  {
    var nodes := t.buckets[h].nodes;
    && |now| == |t.buckets| && now[h] == Chain(kept + rest)
    && (forall n :: n in rest ==> n in nodes)
    && kept + Stay(rest, hash, h, t.bits) == Stay(nodes, hash, h, t.bits)
    && forall e :: 0 <= e < |now| && e != h ==> SpreadAt(t, now[e], hash, h, rest, e)
  }

  ghost predicate SpreadAt(t: Table, b: Bucket, hash: Key -> nat, h: nat, rest: seq<Node>, e: nat)
    requires h < |t.buckets| && t.buckets[h].Chain? && e < |t.buckets|
  {
    if Under(t.buckets, e, h)
    then b.Chain? && Moved(rest, hash, e, t.bits) + b.nodes == Moved(t.buckets[h].nodes, hash, e, t.bits)
    else b == t.buckets[e]
  }

  lemma SpreadBegins(t: Table, now: seq<Bucket>, hash: Key -> nat, h: nat)
    requires Shape(t) && h < |t.buckets| && t.buckets[h].Chain? && Marked(t.buckets, now, h, t.bits)
    ensures h < |now| && now[h] == t.buckets[h]
    ensures SpreadLoop(t, now, hash, h, now[h].nodes, [], Total(now))
  {
    hide Marked, Under, Moved, Stay, Total;
    AllMarked(t, now, h);
    assert [] + now[h].nodes == now[h].nodes;
    forall e | 0 <= e < |now| && e != h ensures SpreadAt(t, now[e], hash, h, now[h].nodes, e) {
      assert Moved(now[h].nodes, hash, e, t.bits) + [] == Moved(now[h].nodes, hash, e, t.bits);
    }
  }

  lemma SpreadStays(t: Table, now: seq<Bucket>, hash: Key -> nat, h: nat, rest: seq<Node>, kept: seq<Node>)
    requires h < |t.buckets| && t.buckets[h].Chain? && Spreading(t, now, hash, h, rest, kept)
    requires rest != [] && Low(hash(rest[0].key), t.bits) == h
    ensures Spreading(t, now, hash, h, rest[1..], kept + [rest[0]]) && now[h] == Chain(kept + [rest[0]] + rest[1..])
  {
    hide Under, Low;
    assert kept + rest == kept + [rest[0]] + rest[1..];
    assert kept + Stay(rest, hash, h, t.bits) == kept + [rest[0]] + Stay(rest[1..], hash, h, t.bits);
  }

  lemma SpreadMoves(t: Table, now: seq<Bucket>, hash: Key -> nat, h: nat, rest: seq<Node>, kept: seq<Node>)
    requires Inv(t, hash) && NoSplitting(t.buckets)
    requires h < |t.buckets| && t.buckets[h].Chain? && Spreading(t, now, hash, h, rest, kept)
    requires rest != [] && Low(hash(rest[0].key), t.bits) != h
    ensures var f := Low(hash(rest[0].key), t.bits);
            && f < |now| && now[f].Chain?
            && Spreading(t, now[h := Chain(kept + rest[1..])][f := Chain([rest[0]] + now[f].nodes)],
                         hash, h, rest[1..], kept)
  {
    var n := rest[0];
    var f := Low(hash(n.key), t.bits);
    FinalUnder(t, hash, h, n);
    hide Under, Low, Inv;
    assert SpreadAt(t, now[f], hash, h, rest, f);
    var now' := now[h := Chain(kept + rest[1..])][f := Chain([n] + now[f].nodes)];
    forall e | 0 <= e < |now| && e != h ensures SpreadAt(t, now'[e], hash, h, rest[1..], e) {
      assert SpreadAt(t, now[e], hash, h, rest, e);
      if e == f {
        assert Moved(rest, hash, e, t.bits) + now[f].nodes == Moved(rest[1..], hash, e, t.bits) + ([n] + now[f].nodes);
      }
    }
  }

  lemma MoveTotal(now: seq<Bucket>, h: nat, f: nat, rest: seq<Node>, kept: seq<Node>)
    requires h < |now| && f < |now| && f != h && rest != [] && now[h] == Chain(kept + rest) && now[f].Chain?
    ensures Total(now[h := Chain(kept + rest[1..])][f := Chain([rest[0]] + now[f].nodes)]) == Total(now)
  {
    hide Total;
    var next := now[h := Chain(kept + rest[1..])];
    TotalUpdate(now, h, Chain(kept + rest[1..]));
    TotalUpdate(next, f, Chain([rest[0]] + next[f].nodes));
  }

  /** The invariant of that loop. */
  ghost predicate SpreadLoop(t: Table, now: seq<Bucket>, hash: Key -> nat, h: nat,
                            rest: seq<Node>, kept: seq<Node>, total: nat)
    requires h < |t.buckets| && t.buckets[h].Chain?
  {
    && h < |now| && now[h] == Chain(kept + rest) && Total(now) == total
    && Spreading(t, now, hash, h, rest, kept)
  }

  lemma StayStep(t: Table, now: seq<Bucket>, hash: Key -> nat, h: nat, rest: seq<Node>, kept: seq<Node>, total: nat)
    requires h < |t.buckets| && t.buckets[h].Chain? && SpreadLoop(t, now, hash, h, rest, kept, total)
    requires rest != [] && Low(hash(rest[0].key), t.bits) == h
    ensures SpreadLoop(t, now, hash, h, rest[1..], kept + [rest[0]], total)
  {
    hide Low, Spreading, Total;
    SpreadStays(t, now, hash, h, rest, kept);
  }

  lemma MoveStep(t: Table, now: seq<Bucket>, hash: Key -> nat, h: nat, rest: seq<Node>, kept: seq<Node>, total: nat)
    requires Inv(t, hash) && NoSplitting(t.buckets)
    requires h < |t.buckets| && t.buckets[h].Chain? && SpreadLoop(t, now, hash, h, rest, kept, total)
    requires rest != [] && Low(hash(rest[0].key), t.bits) != h
    ensures h < |now| && Low(hash(rest[0].key), t.bits) < |now| && now[Low(hash(rest[0].key), t.bits)].Chain?
    ensures var f := Low(hash(rest[0].key), t.bits);
            var next := now[h := Chain(kept + rest[1..])][f := Chain([rest[0]] + now[f].nodes)];
            SpreadLoop(t, next, hash, h, rest[1..], kept, total)
  {
    hide Inv, NoSplitting, Low, Spreading, Total;
    var f := Low(hash(rest[0].key), t.bits);
    SpreadMoves(t, now, hash, h, rest, kept);
    MoveTotal(now, h, f, rest, kept);
  }

  lemma SpreadEnds(t: Table, now: seq<Bucket>, hash: Key -> nat, h: nat, kept: seq<Node>, total: nat)
    requires h < |t.buckets| && t.buckets[h].Chain? && SpreadLoop(t, now, hash, h, [], kept, total)
    ensures Spread(t, Table(t.bits, now, t.floor), hash, h) && Total(now) == total
  {
    hide Under, Low, Total;
    assert kept + [] == kept;
    forall e | 0 <= e < |now| && e != h && Under(t.buckets, e, h)
      ensures now[e] == Chain(Moved(t.buckets[h].nodes, hash, e, t.bits))
    {
      assert SpreadAt(t, now[e], hash, h, [], e);
      assert [] + now[e].nodes == now[e].nodes;
    }
    forall e | 0 <= e < |now| && e != h && !Under(t.buckets, e, h) ensures now[e] == t.buckets[e] {
      assert SpreadAt(t, now[e], hash, h, [], e);
    }
  }

  /** Marking adds empty lists only. */
  lemma {:induction false} SameLengths(a: seq<Bucket>, b: seq<Bucket>)
    requires |a| == |b| && forall e :: 0 <= e < |a| ==> Length(a[e]) == Length(b[e])
    ensures Total(a) == Total(b)
    decreases |a|
  {
    if a != [] { SameLengths(a[1..], b[1..]); }
  }

  lemma MarkedTotal(t: Table, now: seq<Bucket>, h: nat)
    requires Shape(t) && Marked(t.buckets, now, h, t.bits) && h < |t.buckets| && t.buckets[h].Chain?
    ensures Total(now) == Total(t.buckets)
  {
    hide Total;
    AllMarked(t, now, h);
    forall e | 0 <= e < |now| ensures Length(now[e]) == Length(t.buckets[e]) {}
    SameLengths(now, t.buckets);
  }
}

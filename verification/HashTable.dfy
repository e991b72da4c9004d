/** tbb::concurrent_hash_map: buckets form a tree in which a bucket's parent is its
    index without the topmost bit. A bucket added by growth is pending until some
    operation needs it; then the nodes that belong to it are split off its parent.
    Actions are the critical sections of the source: `Splitting` is a bucket already
    marked rehashed whose nodes have not been moved yet. */
module HashTable {
  import opened Arithmetic

  type Key(==, !new)
  type Value(!new)

  datatype Node = Node(key: Key, val: Value)

  datatype Bucket = Pending | Splitting | Chain(nodes: seq<Node>)

  /** 2^bits buckets; the mask is 2^bits - 1. No operation under way has loaded a mask
      of fewer than `floor` bits: growth of an empty table, which is not concurrent with
      anything, raises it. The source keeps no record of it. */
  datatype Table = Table(bits: nat, buckets: seq<Bucket>, floor: nat)

  datatype Option<T> = None | Some(value: T)

  /** h & (2^k - 1). */
  function Low(h: nat, k: nat): (r: nat)
    ensures r < Pow2(k)
  {
    h % Pow2(k)
  }

  /** Index of the topmost bit. */
  function Log2(b: nat): (k: nat)
    requires b > 0
    ensures Pow2(k) <= b < Pow2(k + 1)
  {
    if b == 1 then 0 else Log2(b / 2) + 1
  }

  function Parent(b: nat): nat
    requires b > 0
  {
    Low(b, Log2(b))
  }

  // ----- bits

  lemma {:induction false} Pow2Divides(j: nat, k: nat) returns (q: nat)
    requires j <= k
    ensures Pow2(k) == q * Pow2(j)
    decreases k
  {
    if j == k {
      q := 1;
    } else {
      q := Pow2Divides(j, k - 1);
      Double(q, Pow2(j));
      q := 2 * q;
    }
  }

  lemma Double(q: nat, p: nat)
    ensures 2 * (q * p) == (2 * q) * p
  {
  }

  /** Cutting to j bits can be done in two steps. */
  lemma LowLow(h: nat, j: nat, k: nat)
    requires j <= k
    ensures Low(Low(h, k), j) == Low(h, j)
  {
    hide Pow2;
    var q := Pow2Divides(j, k);
    ModMod(h, Pow2(j), q);
  }

  lemma ModMod(h: nat, p: nat, q: nat)
    requires p > 0 && q * p > 0
    ensures h % (q * p) % p == h % p
  {
    var r := h % (q * p);
    var a, b := h / (q * p), r / p;
    assert h == a * (q * p) + r;
    assert r == b * p + r % p;
    Regroup(a, q, p, b, r % p);
    DivIs(h, p, a * q + b, r % p);
  }

  lemma Regroup(a: nat, q: nat, p: nat, b: nat, r: nat)
    ensures a * (q * p) + (b * p + r) == (a * q + b) * p + r
  {
  }

  lemma LowSmall(b: nat, k: nat)
    requires b < Pow2(k)
    ensures Low(b, k) == b
  {
    DivIs(b, Pow2(k), 0, b);
  }

  /** One more bit either leaves the index or adds its topmost bit. */
  lemma LowStep(h: nat, k: nat)
    ensures Low(h, k + 1) == Low(h, k) || Low(h, k + 1) == Low(h, k) + Pow2(k)
  {
    LowLow(h, k, k + 1);
    var r := Low(h, k + 1);
    if r < Pow2(k) {
      LowSmall(r, k);
    } else {
      DivIs(r, Pow2(k), 1, r - Pow2(k));
    }
  }

  lemma {:induction false} Log2Is(b: nat, k: nat)
    requires Pow2(k) <= b < Pow2(k + 1)
    ensures b > 0 && Log2(b) == k
  {
    var l := Log2(b);
    if l < k { Pow2Monotone(l + 1, k); }
    if k < l { Pow2Monotone(k + 1, l); }
  }

  /** On the path of `h`, the index with one bit less is the same bucket or its parent. */
  lemma PathStep(h: nat, k: nat)
    requires k >= 1
    ensures var b := Low(h, k + 1); b == Low(h, k) || (b > 1 && Log2(b) == k && Parent(b) == Low(h, k))
  {
    LowStep(h, k);
    var b := Low(h, k + 1);
    if b != Low(h, k) {
      Pow2Monotone(1, k);
      Log2Is(b, k);
      LowLow(h, k, k + 1);
    }
  }

  // ----- where a hash code lives

  /** The nearest rehashed bucket on the path from index h & (2^k - 1) to the root. */
  function Home(t: Table, h: nat, k: nat): (b: nat)
    requires k >= 1 && |t.buckets| >= Pow2(k)
    ensures b < Pow2(k)
    decreases k
  {
    if k == 1 || t.buckets[Low(h, k)].Chain? then Low(h, k)
    else Pow2Less(k); Home(t, h, k - 1)
  }

  lemma Pow2Less(k: nat)
    requires k >= 1
    ensures Pow2(k - 1) < Pow2(k)
  {
  }

  ghost predicate Shape(t: Table) {
    && t.bits >= 1 && t.floor <= t.bits && |t.buckets| == Pow2(t.bits)
    && t.buckets[0].Chain? && t.buckets[1].Chain?
  }

  predicate DistinctKeys(nodes: seq<Node>) {
    forall i, j :: 0 <= i < j < |nodes| ==> nodes[i].key != nodes[j].key
  }

  /** Every node lives in the nearest rehashed bucket on the path of its full index,
      and no key occurs twice. */
  ghost predicate Placed(t: Table, hash: Key -> nat)
    requires Shape(t)
  {
    forall b :: 0 <= b < |t.buckets| && t.buckets[b].Chain? ==>
      && DistinctKeys(t.buckets[b].nodes)
      && forall n :: n in t.buckets[b].nodes ==> Home(t, hash(n.key), t.bits) == b
  }

  /** A rehashed bucket has a rehashed parent, unless an empty table grew by it. */
  ghost predicate ParentsReady(t: Table)
    requires Shape(t)
  {
    forall b :: 2 <= b < |t.buckets| && Pow2(t.floor) <= b && t.buckets[b].Chain? ==>
      Parent(b) < |t.buckets| && t.buckets[Parent(b)].Chain?
  }

  /** Every node is in the bucket of its full index. */
  ghost predicate Final(t: Table, hash: Key -> nat) {
    forall b, n :: 0 <= b < |t.buckets| && t.buckets[b].Chain? && n in t.buckets[b].nodes ==>
        Low(hash(n.key), t.bits) == b
  }

  ghost predicate Inv(t: Table, hash: Key -> nat) {
    Shape(t) && Placed(t, hash) && ParentsReady(t) && (t.floor == t.bits ==> Final(t, hash))
  }

  // ----- searching

  /** search_bucket */
  function Search(nodes: seq<Node>, key: Key): Option<Value> {
    if nodes == [] then None
    else if nodes[0].key == key then Some(nodes[0].val)
    else Search(nodes[1..], key)
  }

  lemma {:induction false} SearchIs(nodes: seq<Node>, key: Key)
    ensures Search(nodes, key).Some? ==> Node(key, Search(nodes, key).value) in nodes
    ensures Search(nodes, key).None? ==> forall n :: n in nodes ==> n.key != key
    decreases |nodes|
  {
    if nodes != [] && nodes[0].key != key {
      SearchIs(nodes[1..], key);
      forall n | n in nodes ensures n == nodes[0] || n in nodes[1..] {}
    }
  }

  lemma SearchUnique(nodes: seq<Node>, key: Key, v: Value)
    requires DistinctKeys(nodes) && Node(key, v) in nodes
    ensures Search(nodes, key) == Some(v)
  {
    SearchIs(nodes, key);
  }

  /** The value stored under a key: what a search of its home bucket finds. */
  ghost function Get(t: Table, hash: Key -> nat, key: Key): Option<Value>
    requires Shape(t)
  {
    var b := t.buckets[Home(t, hash(key), t.bits)];
    if b.Chain? then Search(b.nodes, key) else None
  }

  /** Nothing is hidden elsewhere: a key found in any bucket is found at home. */
  lemma FoundAnywhere(t: Table, hash: Key -> nat, b: nat, key: Key, v: Value)
    requires Shape(t) && Placed(t, hash)
    requires b < |t.buckets| && t.buckets[b].Chain? && Node(key, v) in t.buckets[b].nodes
    ensures Get(t, hash, key) == Some(v)
  {
    SearchUnique(t.buckets[b].nodes, key, v);
  }

  lemma {:induction false} HomeReady(t: Table, h: nat, k: nat)
    requires Shape(t) && 1 <= k <= t.bits && |t.buckets| >= Pow2(k)
    ensures Home(t, h, k) < |t.buckets| && t.buckets[Home(t, h, k)].Chain?
    decreases k
  {
    if k == 1 {
      assert Pow2(1) == 2;
    } else if !t.buckets[Low(h, k)].Chain? {
      HomeReady(t, h, k - 1);
    }
  }

  // ----- searching with a mask that may be out of date

  /** check_rehashing_collision: with the first set bit of `h` at or above position
      `p`, the index that includes this bit. */
  function FirstChild(h: nat, p: nat, bits: nat): nat
    requires p < bits && Low(h, p) != Low(h, bits)
    decreases bits - p
  {
    if Low(h, p + 1) != Low(h, p) then Low(h, p + 1)
    else FirstChild(h, p + 1, bits)
  }

  lemma ChildInRange(h: nat, p: nat, bits: nat)
    requires p <= bits && Low(h, p) != Low(h, bits)
    ensures p < bits && FirstChild(h, p, bits) < Pow2(bits)
  {
    var q := FirstChildIs(h, p, bits);
  }

  predicate Collides(t: Table, h: nat, j: nat)
    requires j <= t.bits && |t.buckets| == Pow2(t.bits)
  {
    Low(h, j) != Low(h, t.bits) &&
    (ChildInRange(h, j, t.bits); !t.buckets[FirstChild(h, j, t.bits)].Pending?)
  }

  lemma {:induction false} FirstChildIs(h: nat, p: nat, bits: nat) returns (q: nat)
    requires p <= bits && Low(h, p) != Low(h, bits)
    ensures p <= q < bits && Low(h, q) == Low(h, p) && Low(h, q + 1) != Low(h, q)
    ensures FirstChild(h, p, bits) == Low(h, q + 1) < Pow2(bits)
    decreases bits - p
  {
    if Low(h, p + 1) != Low(h, p) {
      q := p;
      Pow2Monotone(p + 1, bits);
    } else {
      q := FirstChildIs(h, p + 1, bits);
    }
  }

  /** Above a pending bucket of the path nothing is rehashed. */
  lemma {:induction false} PendingAbove(t: Table, h: nat, p: nat, k: nat)
    requires Shape(t) && ParentsReady(t) && 2 <= p <= k <= t.bits && t.floor <= p
    requires Pow2(k) <= |t.buckets| && Pow2(p) <= |t.buckets|
    requires !t.buckets[Low(h, p)].Chain?
    ensures !t.buckets[Low(h, k)].Chain?
    decreases k
  {
    if p < k {
      Pow2Monotone(k - 1, k);
      Pow2Monotone(t.floor, k - 1);
      PendingAbove(t, h, p, k - 1);
      PathStep(h, k - 1);
    }
  }

  lemma {:induction false} HomeBelow(t: Table, h: nat, p: nat, k: nat)
    requires Shape(t) && 1 <= p <= k <= t.bits && Pow2(k) <= |t.buckets| && Pow2(p) <= |t.buckets|
    requires forall i :: p < i <= k ==> Pow2(i) <= |t.buckets| && !t.buckets[Low(h, i)].Chain?
    ensures Home(t, h, k) == Home(t, h, p)
    decreases k
  {
    if p < k { HomeBelow(t, h, p, k - 1); }
  }

  /** The bucket a search with an old mask looks at is the home of the key, unless the
      collision check asks for a restart. */
  lemma StaleBucketIsHome(t: Table, hash: Key -> nat, h: nat, j: nat)
    requires Inv(t, hash) && 1 <= j && t.floor <= j <= t.bits
    requires Low(h, j) < |t.buckets| && t.buckets[Low(h, j)].Chain?
    requires !Collides(t, h, j)
    ensures Home(t, h, t.bits) == Low(h, j)
  {
    hide Home, FirstChild, Pow2, Low, Placed;
    if Low(h, j) != Low(h, t.bits) {
      var q := FirstChildIs(h, j, t.bits);
      NothingAbove(t, h, q);
      Pow2Monotone(q, t.bits);
      HomeBelow(t, h, q, t.bits);
      HomeHere(t, h, q);
    } else {
      HomeHere(t, h, t.bits);
    }
  }

  lemma HomeHere(t: Table, h: nat, k: nat)
    requires 1 <= k && Pow2(k) <= |t.buckets| && t.buckets[Low(h, k)].Chain?
    ensures Home(t, h, k) == Low(h, k)
  {
  }

  lemma NothingAbove(t: Table, h: nat, q: nat)
    requires Shape(t) && ParentsReady(t) && 1 <= q < t.bits && t.floor <= q
    requires Low(h, q + 1) < |t.buckets| && !t.buckets[Low(h, q + 1)].Chain?
    ensures forall i :: q < i <= t.bits ==> Pow2(i) <= |t.buckets| && !t.buckets[Low(h, i)].Chain?
  {
    forall i | q < i <= t.bits ensures Pow2(i) <= |t.buckets| && !t.buckets[Low(h, i)].Chain? {
      Pow2Monotone(i, t.bits);
      Pow2Monotone(q + 1, t.bits);
      PendingAbove(t, h, q + 1, i);
    }
  }

  datatype Answer = Found(v: Value) | NotFound | Restart

  /** One round of lookup with the mask 2^j - 1 loaded earlier: search the bucket, and
      on a miss check for a concurrent split. */
  function LookupRound(t: Table, hash: Key -> nat, key: Key, j: nat): Answer
    requires j <= t.bits && |t.buckets| == Pow2(t.bits)
    requires Low(hash(key), j) < |t.buckets| && t.buckets[Low(hash(key), j)].Chain?
  {
    match Search(t.buckets[Low(hash(key), j)].nodes, key)
    case Some(v) => Found(v)
    case None => if Collides(t, hash(key), j) then Restart else NotFound
  }

  /** Whatever the age of the mask, an answer other than a restart is the truth. */
  lemma LookupCorrect(t: Table, hash: Key -> nat, key: Key, j: nat)
    requires Inv(t, hash) && 1 <= j && t.floor <= j <= t.bits
    requires Low(hash(key), j) < |t.buckets| && t.buckets[Low(hash(key), j)].Chain?
    ensures match LookupRound(t, hash, key, j)
            case Found(v) => Get(t, hash, key) == Some(v)
            case NotFound => Get(t, hash, key) == None
            case Restart => j < t.bits
  {
    var b := Low(hash(key), j);
    SearchIs(t.buckets[b].nodes, key);
    match LookupRound(t, hash, key, j) {
      case Found(v) => FoundAnywhere(t, hash, b, key, v);
      case NotFound => StaleBucketIsHome(t, hash, hash(key), j);
      case Restart =>
    }
  }

  // ----- splitting a node list

  /** The nodes that go to bucket `b`, whose full mask has k bits, in the order in
      which pushing each of them to the front leaves them. */
  function Moved(nodes: seq<Node>, hash: Key -> nat, b: nat, k: nat): seq<Node> {
    if nodes == [] then []
    else if Low(hash(nodes[0].key), k) == b then Moved(nodes[1..], hash, b, k) + [nodes[0]]
    else Moved(nodes[1..], hash, b, k)
  }

  function Kept(nodes: seq<Node>, hash: Key -> nat, b: nat, k: nat): seq<Node> {
    if nodes == [] then []
    else if Low(hash(nodes[0].key), k) == b then Kept(nodes[1..], hash, b, k)
    else [nodes[0]] + Kept(nodes[1..], hash, b, k)
  }

  lemma {:induction false} SplitMembers(nodes: seq<Node>, hash: Key -> nat, b: nat, k: nat)
    ensures forall n :: n in Moved(nodes, hash, b, k) <==> n in nodes && Low(hash(n.key), k) == b
    ensures forall n :: n in Kept(nodes, hash, b, k) <==> n in nodes && Low(hash(n.key), k) != b
    decreases |nodes|
  {
    if nodes != [] {
      SplitMembers(nodes[1..], hash, b, k);
      assert nodes == [nodes[0]] + nodes[1..];
      hide Low;
      assert forall n :: n in nodes <==> n == nodes[0] || n in nodes[1..];
    }
  }

  lemma TailDistinct(nodes: seq<Node>)
    requires nodes != [] && DistinctKeys(nodes)
    ensures DistinctKeys(nodes[1..]) && forall n :: n in nodes[1..] ==> n.key != nodes[0].key
  {
  }

  lemma ConsDistinct(n: Node, nodes: seq<Node>)
    requires DistinctKeys(nodes) && forall m :: m in nodes ==> m.key != n.key
    ensures DistinctKeys([n] + nodes) && DistinctKeys(nodes + [n])
  {
  }

  lemma {:induction false} SplitDistinct(nodes: seq<Node>, hash: Key -> nat, b: nat, k: nat)
    requires DistinctKeys(nodes)
    ensures DistinctKeys(Moved(nodes, hash, b, k)) && DistinctKeys(Kept(nodes, hash, b, k))
    decreases |nodes|
  {
    if nodes != [] {
      hide DistinctKeys, Low;
      TailDistinct(nodes);
      SplitDistinct(nodes[1..], hash, b, k);
      SplitMembers(nodes[1..], hash, b, k);
      ConsDistinct(nodes[0], Moved(nodes[1..], hash, b, k));
      ConsDistinct(nodes[0], Kept(nodes[1..], hash, b, k));
    } else {
      NoneDistinct();
    }
  }

  lemma NoneDistinct()
    ensures DistinctKeys([])
  {
  }

  /** erase unlinks the first node with the key. */
  function Unlink(nodes: seq<Node>, key: Key): seq<Node> {
    if nodes == [] then []
    else if nodes[0].key == key then nodes[1..]
    else [nodes[0]] + Unlink(nodes[1..], key)
  }

  lemma {:induction false} UnlinkIs(nodes: seq<Node>, key: Key)
    requires DistinctKeys(nodes)
    ensures DistinctKeys(Unlink(nodes, key))
    ensures forall n :: n in Unlink(nodes, key) <==> n in nodes && n.key != key
    decreases |nodes|
  {
    if nodes != [] {
      TailDistinct(nodes);
      UnlinkIs(nodes[1..], key);
      if nodes[0].key != key { ConsDistinct(nodes[0], Unlink(nodes[1..], key)); }
      hide DistinctKeys;
      assert forall n :: n in nodes <==> n == nodes[0] || n in nodes[1..];
    }
  }

  // ----- actions

  datatype Action =
    | Insert(key: Key, val: Value, j: nat)  // with the mask 2^j - 1 loaded earlier
    | Erase(key: Key, j: nat)
    | StartSplit(b: nat)                    // mark the bucket rehashed, under its lock
    | FinishSplit(b: nat)                   // move its nodes over from the parent
    | Grow                                  // publish a new segment of pending buckets
    | GrowEmpty                             // reserve on a table without elements: they count as rehashed

  predicate Enabled(t: Table, hash: Key -> nat, a: Action) {
    |t.buckets| == Pow2(t.bits) &&
    match a
    case Insert(key, _, j) =>
      && 1 <= j && t.floor <= j <= t.bits
      && Low(hash(key), j) < |t.buckets| && t.buckets[Low(hash(key), j)].Chain?
      && LookupRound(t, hash, key, j) == NotFound
    case Erase(key, j) =>
      && 1 <= j && t.floor <= j <= t.bits
      && Low(hash(key), j) < |t.buckets| && t.buckets[Low(hash(key), j)].Chain?
      && LookupRound(t, hash, key, j).Found?
    case StartSplit(b) => 2 <= b < |t.buckets| && t.buckets[b].Pending?
    case FinishSplit(b) => 2 <= b < |t.buckets| && t.buckets[b].Splitting?
        && Parent(b) < |t.buckets| && t.buckets[Parent(b)].Chain?
    case Grow => true
    case GrowEmpty => Empty(t.buckets)
  }

  predicate Empty(buckets: seq<Bucket>) {
    forall x :: 0 <= x < |buckets| && buckets[x].Chain? ==> buckets[x].nodes == []
  }

  /** The segments below are allocated in one block. */
  const FIRST_BLOCK: nat := 8

  /** The first block brings the table from 2 to 256 buckets, each later segment doubles it. */
  function NextBits(bits: nat): nat { if bits == 1 then FIRST_BLOCK else bits + 1 }

  function Fire(t: Table, hash: Key -> nat, a: Action): Table
    requires Enabled(t, hash, a)
  {
    match a
    case Insert(key, val, j) =>
      var b := Low(hash(key), j);
      t.(buckets := t.buckets[b := Chain([Node(key, val)] + t.buckets[b].nodes)])
    case Erase(key, j) =>
      var b := Low(hash(key), j);
      t.(buckets := t.buckets[b := Chain(Unlink(t.buckets[b].nodes, key))])
    case StartSplit(b) => t.(buckets := t.buckets[b := Splitting])
    case FinishSplit(b) =>
      var p, k := Parent(b), Log2(b) + 1;
      var nodes := t.buckets[p].nodes;
      t.(buckets := t.buckets[p := Chain(Kept(nodes, hash, b, k))][b := Chain(Moved(nodes, hash, b, k))])
    case Grow =>
      Table(NextBits(t.bits), t.buckets + Copies(Pow2(NextBits(t.bits)) - Pow2(t.bits), Pending), t.floor)
    case GrowEmpty =>
      Table(NextBits(t.bits), t.buckets + Copies(Pow2(NextBits(t.bits)) - Pow2(t.bits), Chain([])), NextBits(t.bits))
  }

  function Copies(n: int, b: Bucket): (s: seq<Bucket>)
    ensures |s| == (if n < 0 then 0 else n) && forall i :: 0 <= i < |s| ==> s[i] == b
  {
    seq(if n < 0 then 0 else n, _ => b)
  }

  /** What an action means for the map from keys to values. */
  ghost function Effect(m: Key -> Option<Value>, a: Action): Key -> Option<Value> {
    match a
    case Insert(key, val, _) => (q: Key) => if q == key then Some(val) else m(q)
    case Erase(key, _) => (q: Key) => if q == key then None else m(q)
    case _ => m
  }

  // ----- homes after an action

  lemma {:induction false} HomeSame(t: Table, t': Table, h: nat, k: nat)
    requires k >= 1 && |t'.buckets| == |t.buckets| >= Pow2(k)
    requires forall b :: 0 <= b < |t.buckets| ==> (t.buckets[b].Chain? <==> t'.buckets[b].Chain?)
    ensures Home(t', h, k) == Home(t, h, k)
    decreases k
  {
    if k > 1 && !t.buckets[Low(h, k)].Chain? {
      HomeSame(t, t', h, k - 1);
    }
  }

  /** A table in which one chain has been replaced. */
  lemma ChainReplaced(t: Table, b: nat, nodes: seq<Node>, hash: Key -> nat)
    requires Inv(t, hash) && b < |t.buckets| && t.buckets[b].Chain?
    requires DistinctKeys(nodes) && forall n :: n in nodes ==> Home(t, hash(n.key), t.bits) == b
    requires t.floor == t.bits ==> forall n :: n in nodes ==> Low(hash(n.key), t.bits) == b
    ensures Inv(t.(buckets := t.buckets[b := Chain(nodes)]), hash)
    ensures forall q :: Get(t.(buckets := t.buckets[b := Chain(nodes)]), hash, q)
                   == (if Home(t, hash(q), t.bits) == b then Search(nodes, q) else Get(t, hash, q))
  {
    hide Home, Low, Parent, Search, DistinctKeys;
    var t' := t.(buckets := t.buckets[b := Chain(nodes)]);
    forall h: nat ensures Home(t', h, t.bits) == Home(t, h, t.bits) { HomeSame(t, t', h, t.bits); }
  }

  lemma KeepInsert(t: Table, hash: Key -> nat, key: Key, val: Value, j: nat)
    requires Inv(t, hash) && Enabled(t, hash, Insert(key, val, j))
    ensures Inv(Fire(t, hash, Insert(key, val, j)), hash)
    ensures Get(t, hash, key) == None
    ensures var t' := Fire(t, hash, Insert(key, val, j));
            forall q :: Get(t', hash, q) == (if q == key then Some(val) else Get(t, hash, q))
  {
    var b := Low(hash(key), j);
    var nodes := t.buckets[b].nodes;
    LookupCorrect(t, hash, key, j);
    StaleBucketIsHome(t, hash, hash(key), j);
    SearchIs(nodes, key);
    ConsDistinct(Node(key, val), nodes);
    ChainReplaced(t, b, [Node(key, val)] + nodes, hash);
    assert forall q :: q != key ==> Search([Node(key, val)] + nodes, q) == Search(nodes, q) by {
      assert ([Node(key, val)] + nodes)[1..] == nodes;
    }
  }

  lemma FoundIsHome(t: Table, hash: Key -> nat, key: Key, j: nat)
    requires Inv(t, hash) && 1 <= j <= t.bits
    requires Low(hash(key), j) < |t.buckets| && t.buckets[Low(hash(key), j)].Chain?
    requires LookupRound(t, hash, key, j).Found?
    ensures Home(t, hash(key), t.bits) == Low(hash(key), j)
  {
    SearchIs(t.buckets[Low(hash(key), j)].nodes, key);
  }

  lemma KeepErase(t: Table, hash: Key -> nat, key: Key, j: nat)
    requires Inv(t, hash) && Enabled(t, hash, Erase(key, j))
    ensures Inv(Fire(t, hash, Erase(key, j)), hash)
    ensures Get(t, hash, key).Some?
    ensures forall q :: Get(Fire(t, hash, Erase(key, j)), hash, q) == (if q == key then None else Get(t, hash, q))
  {
    var b := Low(hash(key), j);
    var nodes := t.buckets[b].nodes;
    LookupCorrect(t, hash, key, j);
    FoundIsHome(t, hash, key, j);
    UnlinkIs(nodes, key);
    ChainReplaced(t, b, Unlink(nodes, key), hash);
    forall q ensures Search(Unlink(nodes, key), q) == (if q == key then None else Search(nodes, q)) {
      SameMembersSearch(nodes, Unlink(nodes, key), q, key);
    }
  }

  lemma SameMembersSearch(a: seq<Node>, b: seq<Node>, q: Key, gone: Key)
    requires DistinctKeys(a) && DistinctKeys(b)
    requires forall n :: n in b <==> n in a && n.key != gone
    ensures Search(b, q) == (if q == gone then None else Search(a, q))
  {
    SearchIs(a, q);
    SearchIs(b, q);
    if q != gone && Search(a, q).Some? {
      SearchUnique(b, q, Search(a, q).value);
    }
  }

  lemma KeepStartSplit(t: Table, hash: Key -> nat, b: nat)
    requires Inv(t, hash) && Enabled(t, hash, StartSplit(b))
    ensures Inv(Fire(t, hash, StartSplit(b)), hash)
    ensures forall q :: Get(Fire(t, hash, StartSplit(b)), hash, q) == Get(t, hash, q)
  {
    hide Home, Low, Parent, Search, DistinctKeys;
    var t' := Fire(t, hash, StartSplit(b));
    forall h: nat ensures Home(t', h, t.bits) == Home(t, h, t.bits) { HomeSame(t, t', h, t.bits); }
  }

  /** A hash code whose path leaves its level through `b` comes to `b`'s parent. */
  lemma HomeThrough(t: Table, h: nat, k: nat, b: nat)
    requires Shape(t) && 1 <= k <= t.bits && Pow2(k) <= |t.buckets|
    requires 2 <= b < |t.buckets| && !t.buckets[b].Chain? && Low(h, k) == b
    requires Parent(b) < |t.buckets| && t.buckets[Parent(b)].Chain?
    ensures k > Log2(b) && Home(t, h, k) == Parent(b) && Low(h, Log2(b) + 1) == b
  {
    var l := Log2(b);
    if k <= l { Pow2Monotone(k, l); }
    assert l >= 1;
    forall i | l < i <= k ensures Low(h, i) == b && Pow2(i) <= |t.buckets| {
      LowLow(h, i, k);
      Pow2Monotone(l + 1, i);
      Pow2Monotone(i, t.bits);
      LowSmall(b, i);
    }
    Pow2Monotone(l, t.bits);
    HomeBelow(t, h, l, k);
    LowLow(h, l, k);
    HomeHere(t, h, l);
  }

  /** Splitting `b` redirects exactly the codes with `b`'s bits that lived in its parent. */
  lemma {:induction false} HomeAfterSplit(t: Table, t': Table, b: nat, h: nat, k: nat)
    requires Shape(t) && 1 <= k <= t.bits && Pow2(k) <= |t.buckets| == |t'.buckets|
    requires 2 <= b < |t.buckets| && !t.buckets[b].Chain? && t'.buckets[b].Chain?
    requires Parent(b) < |t.buckets| && t.buckets[Parent(b)].Chain?
    requires forall x :: 0 <= x < |t.buckets| && x != b ==> (t.buckets[x].Chain? <==> t'.buckets[x].Chain?)
    ensures Home(t', h, k) ==
            (if k > Log2(b) && Low(h, Log2(b) + 1) == b && Home(t, h, k) == Parent(b) then b else Home(t, h, k))
    decreases k
  {
    var l, x := Log2(b), Low(h, k);
    if k == 1 {
      assert l >= 1;
    } else if t.buckets[x].Chain? {
      if k > l {
        LowLow(h, l + 1, k);
        LowSmall(Parent(b), l + 1);
      }
    } else if x == b {
      HomeThrough(t, h, k, b);
    } else {
      Pow2Less(k);
      HomeAfterSplit(t, t', b, h, k - 1);
    }
  }

  /** Nodes in the bucket of their full index do not move. */
  lemma SplitFinal(t: Table, hash: Key -> nat, b: nat)
    requires Shape(t) && Final(t, hash) && Enabled(t, hash, FinishSplit(b))
    ensures Final(Fire(t, hash, FinishSplit(b)), hash)
  {
    hide Low, Log2, Parent, Moved, Kept, Final;
    var p, k := Parent(b), Log2(b) + 1;
    var nodes := t.buckets[p].nodes;
    ParentSmaller(b);
    BitsAbove(b, t.bits);
    LowSmall(p, k);
    SplitMembers(nodes, hash, b, k);
    forall n | n in nodes ensures Low(hash(n.key), t.bits) == p && Low(hash(n.key), k) == p {
      FinalIs(t, hash, p, n);
      LowLow(hash(n.key), k, t.bits);
    }
    StillFinal(t, hash, p, b, Kept(nodes, hash, b, k), Moved(nodes, hash, b, k));
  }

  lemma FinalIs(t: Table, hash: Key -> nat, p: nat, n: Node)
    requires Final(t, hash) && p < |t.buckets| && t.buckets[p].Chain? && n in t.buckets[p].nodes
    ensures Low(hash(n.key), t.bits) == p
  {
    hide Low;
  }

  lemma StillFinal(t: Table, hash: Key -> nat, p: nat, b: nat, kept: seq<Node>, moved: seq<Node>)
    requires Final(t, hash) && p < |t.buckets| && b < |t.buckets| && p != b
    requires forall n :: n in kept ==> Low(hash(n.key), t.bits) == p
    requires forall n :: n !in moved
    ensures Final(t.(buckets := t.buckets[p := Chain(kept)][b := Chain(moved)]), hash)
    ensures Final(t.(buckets := t.buckets[b := Chain(moved)][p := Chain(kept)]), hash)
  {
    hide Low;
  }

  /** Where codes live once the nodes are moved over. */
  lemma FinishHome(t: Table, hash: Key -> nat, b: nat)
    requires Inv(t, hash) && Enabled(t, hash, FinishSplit(b))
    ensures var t', p, k := Fire(t, hash, FinishSplit(b)), Parent(b), Log2(b) + 1;
            forall h: nat ::
              Home(t', h, t.bits) == (if Low(h, k) == b && Home(t, h, t.bits) == p then b else Home(t, h, t.bits))
  {
    hide Home, Low, Moved, Kept, Final, Placed, ParentsReady, Log2, Pow2, Parent;
    var t', p, k := Fire(t, hash, FinishSplit(b)), Parent(b), Log2(b) + 1;
    ParentSmaller(b);
    BitsAbove(b, t.bits);
    forall h: nat
      ensures Home(t', h, t.bits) == (if Low(h, k) == b && Home(t, h, t.bits) == p then b else Home(t, h, t.bits))
    {
      HomeAfterSplit(t, t', b, h, t.bits);
    }
  }

  lemma FinishInv(t: Table, hash: Key -> nat, b: nat)
    requires Inv(t, hash) && Enabled(t, hash, FinishSplit(b))
    ensures Inv(Fire(t, hash, FinishSplit(b)), hash)
  {
    hide Home, Low, DistinctKeys, Moved, Kept, Final, Log2, Pow2, Parent;
    var p, k := Parent(b), Log2(b) + 1;
    if t.floor == t.bits { SplitFinal(t, hash, b); }
    var nodes := t.buckets[p].nodes;
    ParentSmaller(b);
    SplitMembers(nodes, hash, b, k);
    SplitDistinct(nodes, hash, b, k);
    FinishHome(t, hash, b);
  }

  lemma FinishGet(t: Table, hash: Key -> nat, b: nat, q: Key)
    requires Inv(t, hash) && Enabled(t, hash, FinishSplit(b)) && Shape(Fire(t, hash, FinishSplit(b)))
    ensures Get(Fire(t, hash, FinishSplit(b)), hash, q) == Get(t, hash, q)
  {
    hide Home, Low, Search, DistinctKeys, Moved, Kept, Final, ParentsReady, Log2, Pow2, Parent;
    var p, k := Parent(b), Log2(b) + 1;
    var nodes := t.buckets[p].nodes;
    FinishHome(t, hash, b);
    ParentSmaller(b);
    HomeReady(t, hash(q), t.bits);
    NotHome(t, hash(q), b);
    if Home(t, hash(q), t.bits) == p {
      SplitMembers(nodes, hash, b, k);
      SplitDistinct(nodes, hash, b, k);
      PartSearch(nodes, if Low(hash(q), k) == b then Moved(nodes, hash, b, k) else Kept(nodes, hash, b, k), q);
    }
  }

  lemma KeepFinishSplit(t: Table, hash: Key -> nat, b: nat)
    requires Inv(t, hash) && Enabled(t, hash, FinishSplit(b))
    ensures Inv(Fire(t, hash, FinishSplit(b)), hash)
    ensures forall q :: Get(Fire(t, hash, FinishSplit(b)), hash, q) == Get(t, hash, q)
  {
    FinishInv(t, hash, b);
    hide Fire, Enabled, Get, Placed, ParentsReady, Final, Pow2;
    forall q ensures Get(Fire(t, hash, FinishSplit(b)), hash, q) == Get(t, hash, q) { FinishGet(t, hash, b, q); }
  }

  lemma NotHome(t: Table, h: nat, b: nat)
    requires Shape(t) && b < |t.buckets| && !t.buckets[b].Chain?
    ensures Home(t, h, t.bits) != b
  {
    HomeReady(t, h, t.bits);
  }

  lemma ParentSmaller(b: nat)
    requires b > 0
    ensures Parent(b) < b
  {
  }

  lemma BitsAbove(b: nat, bits: nat)
    requires 0 < b < Pow2(bits)
    ensures bits > Log2(b)
  {
    if bits <= Log2(b) { Pow2Monotone(bits, Log2(b)); }
  }

  /** Searching the part of a list that holds all its nodes with the key. */
  lemma PartSearch(nodes: seq<Node>, part: seq<Node>, q: Key)
    requires DistinctKeys(nodes) && DistinctKeys(part)
    requires forall n :: n in part ==> n in nodes
    requires forall n :: n in nodes && n.key == q ==> n in part
    ensures Search(part, q) == Search(nodes, q)
  {
    SearchIs(nodes, q);
    SearchIs(part, q);
    if Search(part, q).Some? { SearchUnique(nodes, q, Search(part, q).value); }
  }

  lemma {:induction false} HomePrefix(t: Table, t': Table, h: nat, k: nat)
    requires k >= 1 && Pow2(k) <= |t.buckets| <= |t'.buckets| && t'.buckets[..|t.buckets|] == t.buckets
    ensures Home(t', h, k) == Home(t, h, k)
    decreases k
  {
    assert t'.buckets[Low(h, k)] == t.buckets[Low(h, k)];
    if k > 1 && !t.buckets[Low(h, k)].Chain? {
      Pow2Less(k);
      HomePrefix(t, t', h, k - 1);
    }
  }

  lemma {:induction false} HomeGrown(t: Table, t': Table, h: nat, k: nat)
    requires Shape(t) && t.bits <= k && Pow2(k) <= |t'.buckets| && |t.buckets| <= |t'.buckets|
    requires t'.buckets[..|t.buckets|] == t.buckets
    requires forall b :: |t.buckets| <= b < |t'.buckets| ==> !t'.buckets[b].Chain?
    ensures Home(t', h, k) == Home(t, h, t.bits)
    decreases k
  {
    if k == t.bits {
      HomePrefix(t, t', h, k);
    } else {
      Pow2Less(k);
      HomeGrown(t, t', h, k - 1);
      var x := Low(h, k);
      if x < |t.buckets| {
        LowLow(h, t.bits, k);
        LowSmall(x, t.bits);
        assert t'.buckets[x] == t.buckets[x];
      }
    }
  }

  lemma KeepGrow(t: Table, hash: Key -> nat)
    requires Inv(t, hash)
    ensures Inv(Fire(t, hash, Grow), hash)
    ensures forall q :: Get(Fire(t, hash, Grow), hash, q) == Get(t, hash, q)
  {
    hide Home, Low, Search, DistinctKeys, Parent;
    var t' := Fire(t, hash, Grow);
    Pow2Monotone(t.bits, t'.bits);
    assert t'.buckets[..|t.buckets|] == t.buckets;
    forall h: nat ensures Home(t', h, t'.bits) == Home(t, h, t.bits) { HomeGrown(t, t', h, t'.bits); }
    forall q ensures Get(t', hash, q) == Get(t, hash, q) { HomeReady(t, hash(q), t.bits); }
  }

  lemma KeepGrowEmpty(t: Table, hash: Key -> nat)
    requires Inv(t, hash) && Enabled(t, hash, GrowEmpty)
    ensures Inv(Fire(t, hash, GrowEmpty), hash)
    ensures forall q :: Get(Fire(t, hash, GrowEmpty), hash, q) == Get(t, hash, q) == None
  {
    hide Home, Low, Parent;
    var t' := Fire(t, hash, GrowEmpty);
    Pow2Monotone(t.bits, t'.bits);
    assert Empty(t'.buckets);
    forall q ensures Get(t', hash, q) == Get(t, hash, q) == None {
      HomeReady(t, hash(q), t.bits);
      HomeReady(t', hash(q), t'.bits);
    }
  }

  /** Every action keeps the invariant and does to the stored values what it does to
      the abstract map; splits and growth do nothing to it. */
  lemma StepRefines(t: Table, hash: Key -> nat, a: Action, m: Key -> Option<Value>)
    requires Inv(t, hash) && Enabled(t, hash, a)
    requires forall q :: m(q) == Get(t, hash, q)
    ensures Inv(Fire(t, hash, a), hash)
    ensures forall q :: Effect(m, a)(q) == Get(Fire(t, hash, a), hash, q)
  {
    hide Inv, Get, Fire, Enabled;
    match a {
      case Insert(key, val, j) => KeepInsert(t, hash, key, val, j);
      case Erase(key, j) => KeepErase(t, hash, key, j);
      case StartSplit(b) => KeepStartSplit(t, hash, b);
      case FinishSplit(b) => KeepFinishSplit(t, hash, b);
      case Grow => KeepGrow(t, hash);
      case GrowEmpty => KeepGrowEmpty(t, hash);
    }
  }

  // ----- runs

  predicate Initial(t: Table) { t == Table(1, [Chain([]), Chain([])], 0) }

  ghost predicate Run(t: Table, hash: Key -> nat, run: seq<Action>, t': Table)
    decreases |run|
  {
    if run == [] then t == t'
    else Enabled(t, hash, run[0]) && Run(Fire(t, hash, run[0]), hash, run[1..], t')
  }

  ghost function Effects(m: Key -> Option<Value>, run: seq<Action>): Key -> Option<Value>
    decreases |run|
  {
    if run == [] then m else Effects(Effect(m, run[0]), run[1..])
  }

  lemma InitialInv(t: Table, hash: Key -> nat)
    requires Initial(t)
    ensures Inv(t, hash) && forall q :: Get(t, hash, q) == None
  {
    assert Pow2(1) == 2;
  }

  lemma {:induction false} RunRefines(t: Table, hash: Key -> nat, run: seq<Action>, t': Table, m: Key -> Option<Value>)
    requires Inv(t, hash) && Run(t, hash, run, t')
    requires forall q :: m(q) == Get(t, hash, q)
    ensures Inv(t', hash)
    ensures forall q :: Effects(m, run)(q) == Get(t', hash, q)
    decreases |run|
  {
    hide Inv, Get, Fire, Enabled, Effect;
    if run != [] {
      StepRefines(t, hash, run[0], m);
      RunRefines(Fire(t, hash, run[0]), hash, run[1..], t', Effect(m, run[0]));
    }
  }

  /** Through any interleaving of insertions, erasures, growth and split steps, with
      masks of any age, an answer other than a restart agrees with the map that
      the insertions and erasures alone produce. */
  lemma ReachableAnswers(t: Table, hash: Key -> nat, run: seq<Action>, t': Table, key: Key, j: nat)
    requires Initial(t) && Run(t, hash, run, t')
    requires 1 <= j && t'.floor <= j <= t'.bits && |t'.buckets| == Pow2(t'.bits)
    requires Low(hash(key), j) < |t'.buckets| && t'.buckets[Low(hash(key), j)].Chain?
    ensures match LookupRound(t', hash, key, j)
            case Found(v) => Effects(_ => None, run)(key) == Some(v)
            case NotFound => Effects(_ => None, run)(key) == None
            case Restart => j < t'.bits
  {
    InitialInv(t, hash);
    hide Inv, Run, Effects;
    RunRefines(t, hash, run, t', _ => None);
    LookupCorrect(t', hash, key, j);
  }
}

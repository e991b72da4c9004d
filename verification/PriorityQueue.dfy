/** tbb::concurrent_priority_queue: a batch of pushes and pops is executed by one
    thread on a vector that starts with a heap and ends with an unsorted tail.
    Elements are ordered by key only, so distinct elements may tie. */
module PriorityQueue {
  datatype Item = Item(key: int, id: int)
  datatype Op = Push(x: Item) | Pop
  datatype Status = Wait | Pushed | Popped(x: Item) | Failed

  /** The queue's comparison, std::less unless the program gives another. */
  predicate Less(a: Item, b: Item) { a.key < b.key }

  // ----- heaps

  function Parent(i: nat): nat
    requires i > 0
  {
    (i - 1) / 2
  }

  /** The first `n` positions form a max-heap. */
  ghost predicate Heap(d: seq<Item>, n: nat) {
    n <= |d| && forall i :: 0 < i < n ==> !Less(d[Parent(i)], d[i])
  }

  lemma {:induction false} HeapTop(d: seq<Item>, n: nat, i: nat)
    requires Heap(d, n) && i < n
    ensures !Less(d[0], d[i])
    decreases i
  {
    if i > 0 { HeapTop(d, n, Parent(i)); }
  }

  lemma TopIsGreatest(d: seq<Item>, n: nat)
    requires Heap(d, n) && n > 0
    ensures d[0] in multiset(d[..n]) && forall y :: y in multiset(d[..n]) ==> !Less(d[0], y)
  {
    assert d[..n][0] == d[0];
    forall y | y in multiset(d[..n]) ensures !Less(d[0], y) {
      var i :| 0 <= i < n && d[..n][i] == y;
      HeapTop(d, n, i);
    }
  }

  /** A heap on the first `n` positions except that position `cur` holds a value too
      large for its place. */
  ghost predicate HeapRising(d: seq<Item>, n: nat, cur: nat) {
    && cur < n <= |d|
    && (forall i :: 0 < i < n && i != cur ==> !Less(d[Parent(i)], d[i]))
    && (cur > 0 ==> forall i :: 0 < i < n && Parent(i) == cur ==> !Less(d[Parent(cur)], d[i]))
  }

  lemma RiseStep(d: seq<Item>, n: nat, cur: nat)
    requires HeapRising(d, n, cur) && cur > 0 && Less(d[Parent(cur)], d[cur])
    ensures HeapRising(d[cur := d[Parent(cur)]][Parent(cur) := d[cur]], n, Parent(cur))
  {
  }

  lemma SwapMultiset(d: seq<Item>, i: nat, j: nat)
    requires i < |d| && j < |d| && i != j
    ensures multiset(d[i := d[j]][j := d[i]]) == multiset(d)
  {
  }

  /** A heap on the first `n` positions except that position `cur` is a hole, to be
      filled with a value no greater than what lies above it. */
  ghost predicate HeapSinking(d: seq<Item>, n: nat, cur: nat, last: Item) {
    && n <= |d| && (n > 0 ==> cur < n)
    && (forall i :: 0 < i < n && i != cur && Parent(i) != cur ==> !Less(d[Parent(i)], d[i]))
    && (cur > 0 ==> forall i :: 0 < i < n && Parent(i) == cur ==> !Less(d[Parent(cur)], d[i]))
    && (cur > 0 && n > 0 ==> !Less(d[Parent(cur)], last))
  }

  lemma SinkStep(d: seq<Item>, n: nat, cur: nat, last: Item, target: nat)
    requires HeapSinking(d, n, cur, last) && 0 < target < n && Parent(target) == cur
    requires !Less(d[target], last)
    requires forall i :: 0 < i < n && Parent(i) == cur ==> !Less(d[target], d[i])
    ensures HeapSinking(d[cur := d[target]], n, target, last)
  {
    var d' := d[cur := d[target]];
    forall i | 0 < i < n && i != target && Parent(i) != target ensures !Less(d'[Parent(i)], d'[i]) {
      if i == cur {
        assert !Less(d[Parent(cur)], d[target]);
      }
    }
    forall i | 0 < i < n && Parent(i) == target ensures !Less(d'[Parent(target)], d'[i]) {
      assert i != cur;
    }
  }

  lemma SinkDone(d: seq<Item>, n: nat, cur: nat, last: Item)
    requires HeapSinking(d, n, cur, last) && n > 0
    requires forall i :: 0 < i < n && Parent(i) == cur ==> !Less(last, d[i])
    ensures Heap(d[cur := last], n)
  {
  }

  // ----- the sequential queue

  /** What a push or pop with result `st` requires of a queue holding `q` ... */
  ghost predicate Allowed(q: multiset<Item>, op: Op, st: Status) {
    match op
    case Push(_) => st == Pushed
    case Pop =>
      match st
      case Popped(x) => x in q && forall y :: y in q ==> !Less(x, y)
      case Failed => q == multiset{}
      case _ => false
  }

  /** ... and what it leaves. */
  ghost function After(q: multiset<Item>, op: Op, st: Status): multiset<Item> {
    match op
    case Push(x) => q + multiset{x}
    case Pop => if st.Popped? then q - multiset{st.x} else q
  }

  /** A pop may give an element exactly if none in the queue has a greater key, and fail
      exactly if it is empty. */
  lemma PopsGreatest(q: multiset<Item>, x: Item)
    ensures Allowed(q, Pop, Popped(x)) <==> x in q && forall y :: y in q ==> y.key <= x.key
    ensures Allowed(q, Pop, Failed) <==> |q| == 0
  {
  }

  /** Operation number `k` of the batch with its result. */
  datatype Event = Event(k: nat, op: Op, st: Status)

  ghost function Replay(q: multiset<Item>, hist: seq<Event>): multiset<Item> {
    if hist == [] then q
    else
      var m := |hist| - 1;
      After(Replay(q, hist[..m]), hist[m].op, hist[m].st)
  }

  /** Executed one by one in this order on a sequential priority queue, the
      operations have exactly the recorded results. */
  ghost predicate Explains(q: multiset<Item>, hist: seq<Event>) {
    hist != [] ==>
      var m := |hist| - 1;
      Explains(q, hist[..m]) && Allowed(Replay(q, hist[..m]), hist[m].op, hist[m].st)
  }

  lemma ReplaySnoc(q: multiset<Item>, hist: seq<Event>, e: Event)
    ensures Replay(q, hist + [e]) == After(Replay(q, hist), e.op, e.st)
    ensures Explains(q, hist + [e]) <==> Explains(q, hist) && Allowed(Replay(q, hist), e.op, e.st)
  {
    assert (hist + [e])[..|hist|] == hist;
  }

  lemma SumAssociates<T>(a: multiset<T>, b: multiset<T>, c: multiset<T>)
    ensures (a + b) + c == a + (b + c)
  {
  }

  /** Moving one element between the parts of a sum leaves the sum. */
  lemma SumMoves<T>(a: multiset<T>, b: multiset<T>, c: multiset<T>, x: T)
    ensures a + (b + multiset{x}) + c == (a + multiset{x}) + b + c
    ensures a + b + (multiset{x} + c) == (a + multiset{x}) + b + c
  {
  }

  function Ids(hist: seq<Event>): multiset<nat> {
    if hist == [] then multiset{} else Ids(hist[..|hist| - 1]) + multiset{hist[|hist| - 1].k}
  }

  lemma IdsSnoc(hist: seq<Event>, e: Event)
    ensures Ids(hist + [e]) == Ids(hist) + multiset{e.k}
  {
    assert (hist + [e])[..|hist|] == hist;
  }

  lemma IdsEmpty()
    ensures Ids([]) == multiset{}
  {
  }

  lemma IdsLast(hist: seq<Event>)
    requires hist != []
    ensures Ids(hist) == Ids(hist[..|hist| - 1]) + multiset{hist[|hist| - 1].k}
  {
  }

  lemma {:induction false} IdsAppend(a: seq<Event>, b: seq<Event>)
    ensures Ids(a + b) == Ids(a) + Ids(b)
    decreases |b|
  {
    hide Ids;
    if b == [] {
      assert a + b == a;
      IdsEmpty();
    } else {
      var m := |b| - 1;
      IdsAppend(a, b[..m]);
      IdsLast(b);
      assert a + b == (a + b[..m]) + [b[m]];
      IdsSnoc(a + b[..m], b[m]);
      SumAssociates(Ids(a), Ids(b[..m]), multiset{b[m].k});
    }
  }

  lemma {:induction false} IdsContain(hist: seq<Event>, i: nat)
    requires i < |hist|
    ensures hist[i].k in Ids(hist)
    decreases |hist|
  {
    if i < |hist| - 1 { IdsContain(hist[..|hist| - 1], i); }
  }

  /** All of 0, 1, ..., n-1. */
  function Indices(n: nat): (s: seq<nat>)
    ensures |s| == n && forall i :: 0 <= i < n ==> s[i] == i
  {
    seq(n, i => i)
  }

  lemma {:induction false} IndicesOnce(n: nat, k: nat)
    ensures multiset(Indices(n))[k] == (if k < n then 1 else 0)
    ensures multiset(Indices(n + 1)) == multiset(Indices(n)) + multiset{n}
    decreases n
  {
    if n > 0 { IndicesOnce(n - 1, k); }
    assert Indices(n + 1) == Indices(n) + [n];
  }

  /** Every event is an operation of the batch with its recorded status. */
  ghost predicate Recorded(ops: seq<Op>, sts: seq<Status>, hist: seq<Event>) {
    forall i :: 0 <= i < |hist| ==>
      && hist[i].k < |ops| && hist[i].k < |sts|
      && hist[i].op == ops[hist[i].k] && hist[i].st == sts[hist[i].k]
  }

  /** `hist` is the batch in some order under which the results and the final
      contents are those of a sequential queue. */
  ghost predicate Linearizes(q0: multiset<Item>, ops: seq<Op>, sts: seq<Status>, hist: seq<Event>, q1: multiset<Item>) {
    && |ops| == |sts|
    && Ids(hist) == multiset(Indices(|ops|)) && Recorded(ops, sts, hist)
    && Explains(q0, hist) && Replay(q0, hist) == q1
  }

  // ----- a batch in progress

  /** Of the first `n` operations those in `hist` have taken effect, the pushes in
      `tail` have not yet, and the pops in `pops` are postponed. */
  ghost predicate Book(ops: seq<Op>, sts: seq<Status>, hist: seq<Event>, tail: seq<Event>, pops: seq<nat>, n: nat) {
    && |sts| == |ops| && n <= |ops|
    && Ids(hist) + Ids(tail) + multiset(pops) == multiset(Indices(n))
    && Recorded(ops, sts, hist) && Recorded(ops, sts, tail)
    && (forall j :: 0 <= j < |pops| ==> pops[j] < |ops| && ops[pops[j]] == Pop)
  }

  lemma BookedOnce(ops: seq<Op>, sts: seq<Status>, hist: seq<Event>, tail: seq<Event>, pops: seq<nat>, n: nat, k: nat)
    requires Book(ops, sts, hist, tail, pops, n) && (k in pops || k >= n)
    ensures k !in Ids(hist) && k !in Ids(tail)
  {
    IndicesOnce(n, k);
    assert k in pops ==> multiset(pops)[k] >= 1;
  }

  lemma StatusSet(ops: seq<Op>, sts: seq<Status>, hist: seq<Event>, k: nat, st: Status)
    requires Recorded(ops, sts, hist) && k !in Ids(hist) && k < |sts|
    ensures Recorded(ops, sts[k := st], hist)
  {
    forall i | 0 <= i < |hist| ensures hist[i].k != k {
      IdsContain(hist, i);
    }
  }

  lemma RecordedMore(ops: seq<Op>, sts: seq<Status>, hist: seq<Event>, e: Event)
    requires Recorded(ops, sts, hist) && Recorded(ops, sts, [e])
    ensures Recorded(ops, sts, hist + [e])
  {
    assert [e][0] == e;
  }

  lemma RecordedOne(ops: seq<Op>, sts: seq<Status>, e: Event)
    requires e.k < |ops| && e.k < |sts| && e.op == ops[e.k] && e.st == sts[e.k]
    ensures Recorded(ops, sts, [e])
  {
  }

  lemma RecordedPart(ops: seq<Op>, sts: seq<Status>, hist: seq<Event>, part: seq<Event>)
    requires Recorded(ops, sts, hist)
    requires forall i :: 0 <= i < |part| ==> part[i] in hist
    ensures Recorded(ops, sts, part)
  {
  }

  lemma BookPush(ops: seq<Op>, sts: seq<Status>, hist: seq<Event>, tail: seq<Event>, pops: seq<nat>, n: nat)
    requires Book(ops, sts, hist, tail, pops, n) && n < |ops| && ops[n].Push?
    ensures Book(ops, sts[n := Pushed], hist, tail + [Event(n, ops[n], Pushed)], pops, n + 1)
  {
    hide Ids, Recorded, Indices;
    var e := Event(n, ops[n], Pushed);
    BookedOnce(ops, sts, hist, tail, pops, n, n);
    StatusSet(ops, sts, hist, n, Pushed);
    StatusSet(ops, sts, tail, n, Pushed);
    IndicesOnce(n, n);
    IdsSnoc(tail, e);
    RecordedOne(ops, sts[n := Pushed], e);
    RecordedMore(ops, sts[n := Pushed], tail, e);
  }

  lemma BookPostpone(ops: seq<Op>, sts: seq<Status>, hist: seq<Event>, tail: seq<Event>, pops: seq<nat>, n: nat)
    requires Book(ops, sts, hist, tail, pops, n) && n < |ops| && ops[n].Pop?
    ensures Book(ops, sts, hist, tail, [n] + pops, n + 1)
  {
    IndicesOnce(n, n);
  }

  lemma FrontOfMultiset<T>(s: seq<T>)
    requires s != []
    ensures multiset(s) == multiset{s[0]} + multiset(s[1..])
  {
    assert s == [s[0]] + s[1..];
  }

  lemma BackOfMultiset<T>(s: seq<T>)
    requires s != []
    ensures multiset(s) == multiset(s[..|s| - 1]) + multiset{s[|s| - 1]}
  {
    assert s == s[..|s| - 1] + [s[|s| - 1]];
  }

  /** The first postponed pop takes effect with status `st`. */
  lemma BookPop(ops: seq<Op>, sts: seq<Status>, hist: seq<Event>, tail: seq<Event>, pops: seq<nat>, n: nat, st: Status)
    requires Book(ops, sts, hist, tail, pops, n) && pops != []
    ensures pops[0] < |ops| == |sts| && ops[pops[0]].Pop?
    ensures Book(ops, sts[pops[0] := st], hist + [Event(pops[0], Pop, st)], tail, pops[1..], n)
  {
    hide Ids, Recorded, Indices;
    var k := pops[0];
    var e := Event(k, Pop, st);
    BookedOnce(ops, sts, hist, tail, pops, n, k);
    StatusSet(ops, sts, hist, k, st);
    StatusSet(ops, sts, tail, k, st);
    IdsSnoc(hist, e);
    RecordedOne(ops, sts[k := st], e);
    RecordedMore(ops, sts[k := st], hist, e);
    FrontOfMultiset(pops);
    SumMoves(Ids(hist), Ids(tail), multiset(pops[1..]), k);
  }

  /** The last push of the tail takes effect. */
  lemma BookTailLast(ops: seq<Op>, sts: seq<Status>, hist: seq<Event>, tail: seq<Event>, pops: seq<nat>, n: nat)
    requires Book(ops, sts, hist, tail, pops, n) && tail != []
    ensures Book(ops, sts, hist + [tail[|tail| - 1]], tail[..|tail| - 1], pops, n)
  {
    var m := |tail| - 1;
    hide Ids, Recorded, Indices;
    IdsSnoc(hist, tail[m]);
    IdsLast(tail);
    RecordedPart(ops, sts, tail, [tail[m]]);
    RecordedPart(ops, sts, tail, tail[..m]);
    RecordedMore(ops, sts, hist, tail[m]);
    SumMoves(Ids(hist), Ids(tail[..m]), multiset(pops), tail[m].k);
  }

  function LastToFront<T>(s: seq<T>): seq<T>
    requires s != []
  {
    s[0 := s[|s| - 1]][..|s| - 1]
  }

  lemma LastToFrontIds(tail: seq<Event>)
    requires tail != []
    ensures Ids(tail) == Ids(LastToFront(tail)) + multiset{tail[0].k}
    ensures forall i :: 0 <= i < |LastToFront(tail)| ==> LastToFront(tail)[i] in tail
  {
    var m := |tail| - 1;
    IdsLast(tail);
    if m > 0 {
      IdsFirst(tail[..m]);
      IdsFirst(LastToFront(tail));
      hide Ids;
      assert LastToFront(tail)[1..] == tail[..m][1..];
      assert LastToFront(tail)[0] == tail[m];
      SwapEnds(multiset{tail[0].k}, Ids(tail[..m][1..]), multiset{tail[m].k});
    }
  }

  lemma SwapEnds<T>(a: multiset<T>, b: multiset<T>, c: multiset<T>)
    ensures (a + b) + c == (c + b) + a
  {
  }

  lemma IdsFirst(hist: seq<Event>)
    requires hist != []
    ensures Ids(hist) == multiset{hist[0].k} + Ids(hist[1..])
  {
    assert hist == [hist[0]] + hist[1..];
    IdsAppend([hist[0]], hist[1..]);
    IdsLast([hist[0]]);
    assert [hist[0]][..0] == [];
  }

  /** The first push of the tail takes effect and the last one takes its place. */
  lemma BookTailFirst(ops: seq<Op>, sts: seq<Status>, hist: seq<Event>, tail: seq<Event>, pops: seq<nat>, n: nat)
    requires Book(ops, sts, hist, tail, pops, n) && tail != []
    ensures Book(ops, sts, hist + [tail[0]], LastToFront(tail), pops, n)
  {
    hide Ids, Recorded, Indices, LastToFront;
    IdsSnoc(hist, tail[0]);
    LastToFrontIds(tail);
    RecordedPart(ops, sts, tail, [tail[0]]);
    RecordedPart(ops, sts, tail, LastToFront(tail));
    RecordedMore(ops, sts, hist, tail[0]);
    SumMoves(Ids(hist), Ids(LastToFront(tail)), multiset(pops), tail[0].k);
  }

  lemma {:induction false} RecordedAppend(ops: seq<Op>, sts: seq<Status>, a: seq<Event>, b: seq<Event>)
    requires Recorded(ops, sts, a) && Recorded(ops, sts, b)
    ensures Recorded(ops, sts, a + b)
  {
  }

  /** Merging the tail into the heap makes the remaining pushes take effect. */
  lemma BookAll(ops: seq<Op>, sts: seq<Status>, hist: seq<Event>, tail: seq<Event>, n: nat)
    requires Book(ops, sts, hist, tail, [], n)
    ensures Book(ops, sts, hist + tail, [], [], n)
  {
    hide Recorded, Indices;
    IdsAppend(hist, tail);
    RecordedAppend(ops, sts, hist, tail);
    RecordedPart(ops, sts, hist, []);
  }

  /** The tail of the vector holds the elements whose pushes are in `tail`. */
  ghost predicate TailIs(d: seq<Item>, mark: nat, tail: seq<Event>) {
    && |d| == mark + |tail|
    && forall j :: 0 <= j < |tail| ==> tail[j].op == Push(d[mark + j]) && tail[j].st == Pushed
  }

  /** The history explains the heap part. */
  ghost predicate HeapIs(q0: multiset<Item>, d: seq<Item>, mark: nat, hist: seq<Event>) {
    && Heap(d, mark)
    && Explains(q0, hist) && Replay(q0, hist) == multiset(d[..mark])
  }

  /** A pushed element no smaller than the heap's top may be popped at once. */
  lemma PushPop(q0: multiset<Item>, d: seq<Item>, mark: nat, hist: seq<Event>, e: Event, k: nat, x: Item)
    requires HeapIs(q0, d, mark, hist) && e.op == Push(x) && e.st == Pushed
    requires mark > 0 ==> Less(d[0], x)
    ensures Explains(q0, hist + [e] + [Event(k, Pop, Popped(x))])
    ensures Replay(q0, hist + [e] + [Event(k, Pop, Popped(x))]) == multiset(d[..mark])
  {
    ReplaySnoc(q0, hist, e);
    ReplaySnoc(q0, hist + [e], Event(k, Pop, Popped(x)));
    if mark > 0 { TopIsGreatest(d, mark); }
  }

  /** The heap's top may be popped. */
  lemma PopTop(q0: multiset<Item>, d: seq<Item>, mark: nat, hist: seq<Event>, k: nat)
    requires HeapIs(q0, d, mark, hist) && mark > 0
    ensures Explains(q0, hist + [Event(k, Pop, Popped(d[0]))])
    ensures Replay(q0, hist + [Event(k, Pop, Popped(d[0]))]) == multiset(d[..mark]) - multiset{d[0]}
  {
    ReplaySnoc(q0, hist, Event(k, Pop, Popped(d[0])));
    TopIsGreatest(d, mark);
  }

  lemma {:induction false} PushAll(q0: multiset<Item>, d: seq<Item>, hist: seq<Event>, tail: seq<Event>)
    requires Explains(q0, hist) && TailIs(d, 0, tail)
    ensures Explains(q0, hist + tail)
    ensures Replay(q0, hist + tail) == Replay(q0, hist) + multiset(d)
    decreases |d|
  {
    hide Replay, Explains;
    if d == [] {
      assert hist + tail == hist;
    } else {
      var m := |d| - 1;
      assert TailIs(d[..m], 0, tail[..m]);
      PushAll(q0, d[..m], hist, tail[..m]);
      ReplaySnoc(q0, hist + tail[..m], tail[m]);
      assert hist + tail == (hist + tail[..m]) + [tail[m]];
      assert tail[m].op == Push(d[m]) && tail[m].st == Pushed;
      BackOfMultiset(d);
      SumAssociates(Replay(q0, hist), multiset(d[..m]), multiset{d[m]});
    }
  }

  ghost predicate InBatch(q0: multiset<Item>, ops: seq<Op>, d: seq<Item>, mark: nat, sts: seq<Status>,
                          hist: seq<Event>, tail: seq<Event>, pops: seq<nat>, n: nat) {
    && Book(ops, sts, hist, tail, pops, n)
    && TailIs(d, mark, tail)
    && HeapIs(q0, d, mark, hist)
  }

  lemma BatchStart(ops: seq<Op>, d: seq<Item>)
    requires Heap(d, |d|)
    ensures InBatch(multiset(d), ops, d, |d|, seq(|ops|, _ => Wait), [], [], [], 0)
  {
    IdsEmpty();
    assert d[..|d|] == d;
  }

  lemma PushArrives(q0: multiset<Item>, ops: seq<Op>, d: seq<Item>, mark: nat, sts: seq<Status>,
                    hist: seq<Event>, tail: seq<Event>, pops: seq<nat>, n: nat)
    requires InBatch(q0, ops, d, mark, sts, hist, tail, pops, n) && n < |ops| && ops[n].Push?
    ensures InBatch(q0, ops, d + [ops[n].x], mark, sts[n := Pushed], hist, tail + [Event(n, ops[n], Pushed)],
                pops, n + 1)
  {
    hide Book, Explains, Replay;
    BookPush(ops, sts, hist, tail, pops, n);
    assert (d + [ops[n].x])[..mark] == d[..mark];
  }

  lemma PopArrives(q0: multiset<Item>, ops: seq<Op>, d: seq<Item>, mark: nat, sts: seq<Status>,
                   hist: seq<Event>, tail: seq<Event>, pops: seq<nat>, n: nat)
    requires InBatch(q0, ops, d, mark, sts, hist, tail, pops, n) && n < |ops| && ops[n].Pop?
    ensures InBatch(q0, ops, d, mark, sts, hist, tail, [n] + pops, n + 1)
  {
    hide HeapIs, TailIs;
    BookPostpone(ops, sts, hist, tail, pops, n);
  }

  /** The last tail element is greater than the top: its push and the pop that
      takes it happen at once, before any other push of the tail. */
  lemma LastTaken(q0: multiset<Item>, ops: seq<Op>, d: seq<Item>, mark: nat, sts: seq<Status>,
                  hist: seq<Event>, tail: seq<Event>, pops: seq<nat>, n: nat)
    requires InBatch(q0, ops, d, mark, sts, hist, tail, pops, n) && pops != []
    requires mark < |d| && Less(d[0], d[|d| - 1])
    ensures tail != [] && pops[0] < |sts|
    ensures var x := d[|d| - 1];
            InBatch(q0, ops, d[..|d| - 1], mark, sts[pops[0] := Popped(x)],
                    hist + [tail[|tail| - 1]] + [Event(pops[0], Pop, Popped(x))], tail[..|tail| - 1], pops[1..], n)
  {
    hide Book, Explains, Replay;
    var m := |tail| - 1;
    var x := d[|d| - 1];
    BookTailLast(ops, sts, hist, tail, pops, n);
    BookPop(ops, sts, hist + [tail[m]], tail[..m], pops, n, Popped(x));
    PushPop(q0, d, mark, hist, tail[m], pops[0], x);
    assert d[..|d| - 1][..mark] == d[..mark];
  }

  /** The top of the heap is taken; `d'` is what Reheap makes of the vector. If
      there was a tail its last element is in the heap now, so its push follows. */
  lemma TopTaken(q0: multiset<Item>, ops: seq<Op>, d: seq<Item>, mark: nat, sts: seq<Status>,
                 hist: seq<Event>, tail: seq<Event>, pops: seq<nat>, n: nat, d': seq<Item>)
    returns (hist': seq<Event>, tail': seq<Event>)
    requires InBatch(q0, ops, d, mark, sts, hist, tail, pops, n) && pops != [] && 0 < mark
    requires |d'| == |d| - 1 && Heap(d', if mark == |d| then mark - 1 else mark)
    requires multiset(d') == multiset(d) - multiset{d[0]}
    requires mark < |d| ==> d'[mark..] == d[mark..|d| - 1]
    ensures pops[0] < |sts|
    ensures InBatch(q0, ops, d', if mark == |d| then mark - 1 else mark, sts[pops[0] := Popped(d[0])],
                    hist', tail', pops[1..], n)
  {
    hide Book, Explains, Replay, Heap;
    BookPop(ops, sts, hist, tail, pops, n, Popped(d[0]));
    PopTop(q0, d, mark, hist, pops[0]);
    hist' := hist + [Event(pops[0], Pop, Popped(d[0]))];
    tail' := tail;
    if mark == |d| {
      assert d[..mark] == d && d'[..mark - 1] == d';
    } else {
      var m := |tail| - 1;
      BookTailLast(ops, sts[pops[0] := Popped(d[0])], hist', tail, pops[1..], n);
      ReplaySnoc(q0, hist', tail[m]);
      HeapPart(d, d', mark);
      hist', tail' := hist' + [tail[m]], tail[..m];
      assert tail[m].op == Push(d[|d| - 1]);
      assert forall j :: 0 <= j < m ==> d'[mark..][j] == d[mark..|d| - 1][j];
    }
  }

  lemma HeapPart(d: seq<Item>, d': seq<Item>, mark: nat)
    requires 0 < mark < |d| && |d'| == |d| - 1
    requires multiset(d') == multiset(d) - multiset{d[0]}
    requires d'[mark..] == d[mark..|d| - 1]
    ensures multiset(d'[..mark]) == multiset(d[..mark]) - multiset{d[0]} + multiset{d[|d| - 1]}
  {
    var h, h', t, last := multiset(d[..mark]), multiset(d'[..mark]), multiset(d[mark..|d| - 1]), d[|d| - 1];
    assert d == d[..mark] + d[mark..|d| - 1] + [last];
    assert d' == d'[..mark] + d'[mark..];
    assert d[..mark][0] == d[0];
    assert d[0] in h;
    HeapPartSum(h, h', t, last, d[0]);
  }

  lemma HeapPartSum<T>(h: multiset<T>, h': multiset<T>, t: multiset<T>, last: T, top: T)
    requires top in h && h' + t == h + t + multiset{last} - multiset{top}
    ensures h' == h - multiset{top} + multiset{last}
  {
    forall x ensures h'[x] == (h - multiset{top} + multiset{last})[x] {
      assert (h' + t)[x] == (h + t + multiset{last} - multiset{top})[x];
    }
  }

  /** With no heap the first pushed element is taken, and the last one moves up. */
  lemma FirstTaken(q0: multiset<Item>, ops: seq<Op>, d: seq<Item>, sts: seq<Status>,
                   hist: seq<Event>, tail: seq<Event>, pops: seq<nat>, n: nat)
    requires InBatch(q0, ops, d, 0, sts, hist, tail, pops, n) && pops != [] && d != []
    ensures tail != [] && pops[0] < |sts|
    ensures InBatch(q0, ops, LastToFront(d), 0, sts[pops[0] := Popped(d[0])],
                    hist + [tail[0]] + [Event(pops[0], Pop, Popped(d[0]))], LastToFront(tail), pops[1..], n)
  {
    hide Book, Explains, Replay;
    BookTailFirst(ops, sts, hist, tail, pops, n);
    BookPop(ops, sts, hist + [tail[0]], LastToFront(tail), pops, n, Popped(d[0]));
    PushPop(q0, d, 0, hist, tail[0], pops[0], d[0]);
    assert d[..0] == LastToFront(d)[..0];
  }

  lemma NothingThere(q0: multiset<Item>, ops: seq<Op>, mark: nat, sts: seq<Status>,
                     hist: seq<Event>, tail: seq<Event>, pops: seq<nat>, n: nat)
    requires InBatch(q0, ops, [], mark, sts, hist, tail, pops, n) && pops != []
    ensures pops[0] < |sts|
    ensures InBatch(q0, ops, [], mark, sts[pops[0] := Failed], hist + [Event(pops[0], Pop, Failed)], tail, pops[1..], n)
  {
    hide Book, Explains, Replay;
    BookPop(ops, sts, hist, tail, pops, n, Failed);
    ReplaySnoc(q0, hist, Event(pops[0], Pop, Failed));
    var none: seq<Item> := [];
    assert none[..mark] == none;
  }

  lemma BatchEnd(q0: multiset<Item>, ops: seq<Op>, d: seq<Item>, mark: nat, sts: seq<Status>,
                 hist: seq<Event>, tail: seq<Event>)
    requires InBatch(q0, ops, d, mark, sts, hist, tail, [], |ops|)
    ensures Linearizes(q0, ops, sts, hist + tail, multiset(d))
  {
    BookAll(ops, sts, hist, tail, |ops|);
    IdsEmpty();
    hide Explains, Replay, Ids, Recorded, Indices;
    assert TailIs(d[mark..], 0, tail);
    PushAll(q0, d[mark..], hist, tail);
    assert d == d[..mark] + d[mark..];
    assert Ids(hist + tail) + multiset{} + multiset([]) == Ids(hist + tail);
  }

  // ----- what linearized histories give

  /** Batches executed one after the other linearize as one history. */
  lemma {:induction false} ExplainsAppend(q: multiset<Item>, a: seq<Event>, b: seq<Event>)
    requires Explains(q, a) && Explains(Replay(q, a), b)
    ensures Explains(q, a + b) && Replay(q, a + b) == Replay(Replay(q, a), b)
    decreases |b|
  {
    hide Explains, Replay;
    if b == [] {
      assert a + b == a;
      ReplayEmpty(Replay(q, a));
    } else {
      var m := |b| - 1;
      assert b == b[..m] + [b[m]];
      ReplaySnoc(Replay(q, a), b[..m], b[m]);
      ExplainsAppend(q, a, b[..m]);
      ReplaySnoc(q, a + b[..m], b[m]);
      assert a + b == (a + b[..m]) + [b[m]];
    }
  }

  lemma ReplayEmpty(q: multiset<Item>)
    ensures Replay(q, []) == q && Explains(q, [])
  {
  }

  function Given(hist: seq<Event>): multiset<Item> {
    if hist == [] then multiset{}
    else
      var e := hist[|hist| - 1];
      Given(hist[..|hist| - 1]) + (if e.op.Push? then multiset{e.op.x} else multiset{})
  }

  function Taken(hist: seq<Event>): multiset<Item> {
    if hist == [] then multiset{}
    else
      var e := hist[|hist| - 1];
      Taken(hist[..|hist| - 1]) + (if e.op.Pop? && e.st.Popped? then multiset{e.st.x} else multiset{})
  }

  /** Nothing is lost or invented: contents and elements handed out together are the
      old contents and the elements put in. */
  lemma {:induction false} Conservation(q: multiset<Item>, hist: seq<Event>)
    requires Explains(q, hist)
    ensures Replay(q, hist) + Taken(hist) == q + Given(hist)
    decreases |hist|
  {
    if hist != [] {
      Conservation(q, hist[..|hist| - 1]);
      var e := hist[|hist| - 1];
      Balanced(q, Replay(q, hist[..|hist| - 1]), Given(hist[..|hist| - 1]), Taken(hist[..|hist| - 1]), e);
    }
  }

  lemma Balanced(q: multiset<Item>, r: multiset<Item>, given: multiset<Item>, taken: multiset<Item>, e: Event)
    requires Allowed(r, e.op, e.st) && r + taken == q + given
    ensures After(r, e.op, e.st) + (taken + (if e.op.Pop? && e.st.Popped? then multiset{e.st.x} else multiset{}))
         == q + (given + (if e.op.Push? then multiset{e.op.x} else multiset{}))
  {
    assert taken + multiset{} == taken && given + multiset{} == given;
    if e.op.Push? {
      BalancedPush(q, r, given, taken, multiset{e.op.x});
    } else if e.st.Popped? {
      BalancedPop(r, taken, multiset{e.st.x});
    }
  }

  lemma BalancedPush(q: multiset<Item>, r: multiset<Item>, given: multiset<Item>, taken: multiset<Item>,
                       x: multiset<Item>)
    requires r + taken == q + given
    ensures r + x + taken == q + (given + x)
  {
    assert r + x + taken == (r + taken) + x;
  }

  lemma BalancedPop(r: multiset<Item>, taken: multiset<Item>, x: multiset<Item>)
    requires x <= r
    ensures r - x + (taken + x) == r + taken
  {
    assert r - x + x == r;
  }

  // ----- the queue

  class Queue {
    var data: seq<Item>
    var mark: nat
    var size: nat

    /** Between batches the whole vector is a heap and the published size is right. */
    ghost predicate Valid()
      reads this
    {
      mark == |data| == size && Heap(data, mark)
    }

    constructor ()
      ensures Valid() && data == []
    {
      data, mark, size := [], 0, 0;
    }

    /** Place the first unsorted element: it rises past smaller ancestors. */
    method SiftUp()
      requires 0 < mark < |data| && Heap(data, mark)
      modifies this`data
      ensures |data| == |old(data)| && Heap(data, mark + 1)
      ensures multiset(data) == multiset(old(data))
    {
      var curPos := mark;
      var toPlace := data[mark];
      ghost var d0 := data;
      RiseStart(data, mark);
      hide Rising, Heap;
      while true
        invariant 0 < curPos <= mark && |data| == |d0|
        invariant Rising(d0, data, mark, curPos, toPlace)
        decreases curPos
      {
        var parent := (curPos - 1) / 2;
        if !Less(data[parent], toPlace) { break; }
        RiseOn(d0, data, mark, curPos, toPlace);
        data := data[curPos := data[parent]];
        curPos := parent;
        if curPos == 0 { break; }
      }
      RiseEnds(d0, data, mark, curPos, toPlace);
      data := data[curPos := toPlace];
    }

    /** Merge the unsorted elements into the heap. */
    method Heapify()
      requires Heap(data, mark)
      modifies this`data, this`mark
      ensures mark == |data| == |old(data)| && Heap(data, mark)
      ensures multiset(data) == multiset(old(data))
    {
      if mark == 0 && |data| > 0 {
        mark := 1;
      }
      while mark < |data|
        invariant |data| == |old(data)| && mark <= |data| && (|data| > 0 ==> mark > 0)
        invariant Heap(data, mark) && multiset(data) == multiset(old(data))
      {
        SiftUp();
        mark := mark + 1;
      }
    }

    /** Move the hole at the root down until the last element fits in it. */
    method Sink() returns (curPos: nat)
      requires data != [] && Heap(data, mark)
      modifies this`data
      ensures Sinking(old(data), data, mark, curPos)
      ensures AboveChildren(data, mark, curPos, old(data)[|old(data)| - 1])
    {
      curPos := 0;
      var child := 1;
      ghost var d0 := data;
      var last := data[|data| - 1];
      SinkStart(data, mark);
      hide Sinking, Heap, AboveChildren;
      while child < mark
        invariant child == 2 * curPos + 1
        invariant |data| == |d0| && mark <= |data| && curPos < |data|
        invariant Sinking(d0, data, mark, curPos)
        decreases mark - child
      {
        var target := child;
        if child + 1 < mark && Less(data[child], data[child + 1]) {
          target := target + 1;
        }
        GreaterChild(data, mark, curPos, target);
        if Less(data[target], last) {
          AboveGreatest(data, mark, curPos, data[target], last);
          return;
        }
        SinkOn(d0, data, mark, curPos, target);
        data := data[curPos := data[target]];
        curPos := target;
        child := 2 * curPos + 1;
      }
      NoChildren(data, mark, curPos, last);
    }

    /** Remove the top: the last element, from the heap or from the tail, sinks
        from the root. */
    method Reheap()
      requires data != [] && Heap(data, mark)
      modifies this`data, this`mark
      ensures mark == (if old(mark) == |old(data)| then old(mark) - 1 else old(mark))
      ensures |data| == |old(data)| - 1 && Heap(data, mark)
      ensures multiset(data) == multiset(old(data)) - multiset{old(data)[0]}
      ensures old(mark) == 0 ==> data == LastToFront(old(data))
      ensures 0 < old(mark) < |old(data)| ==> data[mark..] == old(data)[mark..|old(data)| - 1]
    {
      hide Heap, LastToFront, HeapSinking;
      var curPos := Sink();
      ghost var d := data;
      data := data[curPos := data[|data| - 1]];
      data := data[..|data| - 1];
      SinkEnds(old(data), d, mark, curPos, data);
      if mark > |data| {
        mark := |data|;
      }
    }

    /** Hand the last element to pop `k`, the first of the postponed ones. */
    method PopLast(ops: seq<Op>, sts: seq<Status>, ghost popList: seq<nat>, k: nat, ghost q0: multiset<Item>,
                   ghost hist: seq<Event>, ghost tail: seq<Event>, ghost n: nat)
      returns (sts': seq<Status>, ghost hist': seq<Event>, ghost tail': seq<Event>)
      requires InBatch(q0, ops, data, mark, sts, hist, tail, popList, n) && size == |data|
      requires popList != [] && popList[0] == k && k < |sts|
      requires mark < |data| && Less(data[0], data[|data| - 1])
      modifies this`data, this`size
      ensures InBatch(q0, ops, data, mark, sts', hist', tail', popList[1..], n) && size == |data|
    {
      hide InBatch;
      LastTaken(q0, ops, data, mark, sts, hist, tail, popList, n);
      var x := data[|data| - 1];
      size := size - 1;
      sts' := sts[k := Popped(x)];
      hist' := hist + [tail[|tail| - 1]] + [Event(k, Pop, Popped(x))];
      tail' := tail[..|tail| - 1];
      data := data[..|data| - 1];
    }

    /** Hand the first element to pop `k` and repair the vector. */
    method PopFirst(ops: seq<Op>, sts: seq<Status>, ghost popList: seq<nat>, k: nat, ghost q0: multiset<Item>,
                    ghost hist: seq<Event>, ghost tail: seq<Event>, ghost n: nat)
      returns (sts': seq<Status>, ghost hist': seq<Event>, ghost tail': seq<Event>)
      requires InBatch(q0, ops, data, mark, sts, hist, tail, popList, n) && size == |data|
      requires popList != [] && popList[0] == k && k < |sts| && data != []
      modifies this
      ensures InBatch(q0, ops, data, mark, sts', hist', tail', popList[1..], n) && size == |data|
    {
      BatchHeap(q0, ops, data, mark, sts, hist, tail, popList, n);
      hide InBatch, LastToFront, Heap;
      ghost var d, m := data, mark;
      var x := data[0];
      size := size - 1;
      sts' := sts[k := Popped(x)];
      Reheap();
      if m == 0 {
        FirstTaken(q0, ops, d, sts, hist, tail, popList, n);
        hist' := hist + [tail[0]] + [Event(k, Pop, Popped(x))];
        tail' := LastToFront(tail);
      } else {
        hist', tail' := TopTaken(q0, ops, d, m, sts, hist, tail, popList, n, data);
      }
    }

    method Append(ops: seq<Op>, sts: seq<Status>, ghost popList: seq<nat>, n: nat, ghost q0: multiset<Item>,
                  ghost hist: seq<Event>, ghost tail: seq<Event>)
      returns (sts': seq<Status>, ghost tail': seq<Event>)
      requires InBatch(q0, ops, data, mark, sts, hist, tail, popList, n) && size == |data|
      requires n < |ops| && n < |sts| && ops[n].Push?
      modifies this`data, this`size
      ensures InBatch(q0, ops, data, mark, sts', hist, tail', popList, n + 1) && size == |data|
    {
      hide InBatch;
      PushArrives(q0, ops, data, mark, sts, hist, tail, popList, n);
      data := data + [ops[n].x];
      size := size + 1;
      sts' := sts[n := Pushed];
      tail' := tail + [Event(n, ops[n], Pushed)];
    }

    /** A pop that arrives is served at once if the last element is unsorted and greater
        than the first, and postponed otherwise. */
    method ArrivingPop(ops: seq<Op>, sts: seq<Status>, popList: seq<nat>, n: nat, ghost q0: multiset<Item>,
                       ghost hist: seq<Event>, ghost tail: seq<Event>)
      returns (sts': seq<Status>, popList': seq<nat>, ghost hist': seq<Event>, ghost tail': seq<Event>)
      requires InBatch(q0, ops, data, mark, sts, hist, tail, popList, n) && size == |data|
      requires n < |ops| && n < |sts| && ops[n].Pop?
      modifies this
      ensures InBatch(q0, ops, data, mark, sts', hist', tail', popList', n + 1) && size == |data|
    {
      hide InBatch, Heap;
      PopArrives(q0, ops, data, mark, sts, hist, tail, popList, n);
      sts', popList', hist', tail' := sts, popList, hist, tail;
      if mark < |data| && Less(data[0], data[|data| - 1]) {
        ghost var pops := [n] + popList;
        sts', hist', tail' := PopLast(ops, sts, pops, n, q0, hist, tail, n + 1);
        assert pops[1..] == popList;
      } else {
        popList' := [n] + popList;
      }
    }

    /** First pass: pushes append; pops are served at once or postponed. */
    method FirstPass(ops: seq<Op>, ghost q0: multiset<Item>)
      returns (sts: seq<Status>, popList: seq<nat>, ghost hist: seq<Event>, ghost tail: seq<Event>)
      requires Valid() && q0 == multiset(data)
      modifies this
      ensures InBatch(q0, ops, data, mark, sts, hist, tail, popList, |ops|) && size == |data|
    {
      sts := seq(|ops|, _ => Wait);
      popList, hist, tail := [], [], [];
      BatchStart(ops, data);
      hide InBatch, Heap;
      var n := 0;
      while n < |ops|
        invariant n <= |ops| && size == |data|
        invariant InBatch(q0, ops, data, mark, sts, hist, tail, popList, n)
      {
        BatchHeap(q0, ops, data, mark, sts, hist, tail, popList, n);
        if ops[n].Push? {
          sts, tail := Append(ops, sts, popList, n, q0, hist, tail);
        } else {
          sts, popList, hist, tail := ArrivingPop(ops, sts, popList, n, q0, hist, tail);
        }
        n := n + 1;
      }
    }

    /** One round of the second pass: the pop postponed last is executed. */
    method ServePop(ops: seq<Op>, sts: seq<Status>, popList: seq<nat>, ghost q0: multiset<Item>,
                    ghost hist: seq<Event>, ghost tail: seq<Event>)
      returns (sts': seq<Status>, ghost hist': seq<Event>, ghost tail': seq<Event>)
      requires InBatch(q0, ops, data, mark, sts, hist, tail, popList, |ops|) && size == |data|
      requires popList != []
      modifies this
      ensures InBatch(q0, ops, data, mark, sts', hist', tail', popList[1..], |ops|) && size == |data|
    {
      BatchHeap(q0, ops, data, mark, sts, hist, tail, popList, |ops|);
      hide InBatch;
      var k := popList[0];
      if data == [] {
        NothingThere(q0, ops, mark, sts, hist, tail, popList, |ops|);
        sts' := sts[k := Failed];
        hist', tail' := hist + [Event(k, Pop, Failed)], tail;
      } else if mark < |data| && Less(data[0], data[|data| - 1]) {
        sts', hist', tail' := PopLast(ops, sts, popList, k, q0, hist, tail, |ops|);
      } else {
        sts', hist', tail' := PopFirst(ops, sts, popList, k, q0, hist, tail, |ops|);
      }
    }

    /** A whole batch: afterwards the vector is a heap again, and the results and the
        contents are those of executing the batch in the order `hist`, one operation
        at a time, on a sequential priority queue. */
    method HandleOperations(ops: seq<Op>) returns (sts: seq<Status>, ghost hist: seq<Event>)
      requires Valid()
      modifies this
      ensures Valid()
      ensures Linearizes(multiset(old(data)), ops, sts, hist, multiset(data))
    {
      ghost var q0 := multiset(data);
      var popList;
      ghost var tail;
      sts, popList, hist, tail := FirstPass(ops, q0);
      while popList != []
        invariant InBatch(q0, ops, data, mark, sts, hist, tail, popList, |ops|) && size == |data|
        decreases |popList|
      {
        sts, hist, tail := ServePop(ops, sts, popList, q0, hist, tail);
        popList := popList[1..];
      }
      BatchEnd(q0, ops, data, mark, sts, hist, tail);
      BatchHeap(q0, ops, data, mark, sts, hist, tail, popList, |ops|);
      hide InBatch, Linearizes, Heap;
      hist := hist + tail;
      if mark < |data| {
        Heapify();
      }
    }
  }

  lemma BatchHeap(q0: multiset<Item>, ops: seq<Op>, d: seq<Item>, mark: nat, sts: seq<Status>,
                  hist: seq<Event>, tail: seq<Event>, pops: seq<nat>, n: nat)
    requires InBatch(q0, ops, d, mark, sts, hist, tail, pops, n)
    ensures Heap(d, mark) && mark <= |d| && |sts| == |ops|
    ensures forall i :: 0 <= i < |pops| ==> pops[i] < |ops|
  {
  }

  /** The state of the loop of SiftUp started on `d0`. */
  ghost predicate Rising(d0: seq<Item>, d: seq<Item>, mark: nat, cur: nat, toPlace: Item) {
    && |d| == |d0| && cur <= mark < |d|
    && HeapRising(d[cur := toPlace], mark + 1, cur)
    && multiset(d[cur := toPlace]) == multiset(d0)
  }

  lemma RiseStart(d: seq<Item>, mark: nat)
    requires Heap(d, mark) && mark < |d|
    ensures Rising(d, d, mark, mark, d[mark])
  {
    assert d[mark := d[mark]] == d;
  }

  lemma RiseOn(d0: seq<Item>, d: seq<Item>, mark: nat, cur: nat, toPlace: Item)
    requires Rising(d0, d, mark, cur, toPlace) && 0 < cur && Less(d[Parent(cur)], toPlace)
    ensures Rising(d0, d[cur := d[Parent(cur)]], mark, Parent(cur), toPlace)
  {
    hide HeapRising;
    var e, p := d[cur := toPlace], Parent(cur);
    RiseStep(e, mark + 1, cur);
    SwapMultiset(e, cur, p);
    assert e[cur := e[p]][p := e[cur]] == d[cur := d[p]][p := toPlace];
  }

  lemma RiseEnds(d0: seq<Item>, d: seq<Item>, mark: nat, cur: nat, toPlace: Item)
    requires Rising(d0, d, mark, cur, toPlace)
    requires cur == 0 || !Less(d[Parent(cur)], toPlace)
    ensures Heap(d[cur := toPlace], mark + 1)
    ensures multiset(d[cur := toPlace]) == multiset(d0)
  {
  }

  /** The state of the loop of Reheap started on `d0`. */
  ghost predicate Sinking(d0: seq<Item>, d: seq<Item>, mark: nat, cur: nat) {
    && |d| == |d0| && mark <= |d| && cur < |d| && d[|d| - 1] == d0[|d| - 1]
    && (mark > 0 ==> HeapSinking(d, mark, cur, d[|d| - 1]))
    && (if mark == 0 then cur == 0 else cur < mark)
    && multiset(d[cur := d0[0]]) == multiset(d0)
    && d[mark..] == d0[mark..]
    && (cur == 0 ==> d == d0)
  }

  lemma SinkStart(d: seq<Item>, mark: nat)
    requires Heap(d, mark) && d != []
    ensures Sinking(d, d, mark, 0)
  {
  }

  lemma SinkOn(d0: seq<Item>, d: seq<Item>, mark: nat, cur: nat, target: nat)
    requires Sinking(d0, d, mark, cur) && 0 < target < mark && Parent(target) == cur
    requires !Less(d[target], d0[|d0| - 1])
    requires AboveChildren(d, mark, cur, d[target])
    ensures Sinking(d0, d[cur := d[target]], mark, target)
  {
    hide HeapSinking;
    SinkStep(d, mark, cur, d[|d| - 1], target);
    MoveMultiset(d, cur, target, d0[0]);
    assert d[cur := d[target]][mark..] == d[mark..];
  }

  lemma SinkEnds(d0: seq<Item>, d: seq<Item>, mark: nat, cur: nat, r: seq<Item>)
    requires Sinking(d0, d, mark, cur) && r == d[cur := d[|d| - 1]][..|d| - 1]
    requires AboveChildren(d, mark, cur, d0[|d0| - 1])
    ensures |r| == |d0| - 1 && mark <= |d0|
    ensures Heap(r, if mark == |d0| then mark - 1 else mark)
    ensures multiset(r) == multiset(d0) - multiset{d0[0]}
    ensures mark == 0 ==> r == LastToFront(d0)
    ensures 0 < mark < |d0| ==> r[mark..] == d0[mark..|d0| - 1]
  {
    hide HeapSinking, Heap, LastToFront;
    if mark > 0 { SinkDone(d, mark, cur, d[|d| - 1]); }
    var e := d[cur := d[|d| - 1]];
    DropLast(d, cur, d0, d[|d| - 1], e);
    assert r == e[..|e| - 1];
    HeapShorter(e, mark);
    if mark == 0 {
      Unheaped(d0, r);
    } else if mark < |d| {
      TailKept(d0, d, mark, cur, d[|d| - 1]);
    }
  }

  lemma Unheaped(d0: seq<Item>, r: seq<Item>)
    requires d0 != [] && r == d0[0 := d0[|d0| - 1]][..|d0| - 1]
    ensures r == LastToFront(d0)
  {
  }

  lemma TailKept(d0: seq<Item>, d: seq<Item>, mark: nat, cur: nat, last: Item)
    requires cur < mark < |d| == |d0| && d[mark..] == d0[mark..]
    ensures d[cur := last][..|d| - 1][mark..] == d0[mark..|d| - 1]
  {
    assert d[cur := last][..|d| - 1][mark..] == d[mark..][..|d| - 1 - mark];
    assert d0[mark..|d| - 1] == d0[mark..][..|d| - 1 - mark];
  }

  /** No child of `cur` in the heap is greater than `x`. */
  ghost predicate AboveChildren(d: seq<Item>, n: nat, cur: nat, x: Item)
    requires n <= |d|
  {
    forall i :: 0 < i < n && Parent(i) == cur ==> !Less(x, d[i])
  }

  lemma GreaterChild(d: seq<Item>, n: nat, cur: nat, target: nat)
    requires n <= |d| && 2 * cur + 1 < n
    requires target == (if 2 * cur + 2 < n && Less(d[2 * cur + 1], d[2 * cur + 2]) then 2 * cur + 2 else 2 * cur + 1)
    ensures 0 < target < n && Parent(target) == cur && AboveChildren(d, n, cur, d[target])
  {
  }

  lemma AboveGreatest(d: seq<Item>, n: nat, cur: nat, x: Item, y: Item)
    requires n <= |d| && AboveChildren(d, n, cur, x) && Less(x, y)
    ensures AboveChildren(d, n, cur, y)
  {
  }

  lemma NoChildren(d: seq<Item>, n: nat, cur: nat, x: Item)
    requires n <= |d| && 2 * cur + 1 >= n
    ensures AboveChildren(d, n, cur, x)
  {
  }

  lemma HeapShorter(d: seq<Item>, n: nat)
    requires d != [] && (n > 0 ==> Heap(d, n)) && n <= |d|
    ensures Heap(d[..|d| - 1], if n == |d| then n - 1 else n)
  {
  }

  lemma MoveMultiset(d: seq<Item>, i: nat, j: nat, x: Item)
    requires i < |d| && j < |d| && i != j
    ensures multiset(d[i := d[j]][j := x]) == multiset(d[i := x])
  {
    var e := d[i := x];
    SwapMultiset(e, i, j);
    var f := e[i := e[j]][j := e[i]];
    assert f == d[i := d[j]][j := x];
  }

  lemma DropLast(d: seq<Item>, i: nat, d0: seq<Item>, last: Item, r: seq<Item>)
    requires i < |d| == |d0| && r == d[i := last] && r[|r| - 1] == last
    requires multiset(d[i := d0[0]]) == multiset(d0)
    ensures multiset(r[..|r| - 1]) == multiset(d0) - multiset{d0[0]}
  {
    assert r == r[..|r| - 1] + [last];
    var others := multiset(d) - multiset{d[i]};
    assert multiset(d[i := d0[0]]) == others + multiset{d0[0]};
    assert multiset(r) == others + multiset{last};
    Cancel(multiset(r[..|r| - 1]), others, multiset{last});
    Cancel(multiset(d0) - multiset{d0[0]}, others, multiset{d0[0]});
  }

  lemma Cancel(a: multiset<Item>, b: multiset<Item>, x: multiset<Item>)
    requires a + x == b + x
    ensures a == b
  {
    assert a == a + x - x && b == b + x - x;
  }
}

/** tbb::concurrent_lru_cache: values are shared through handles; a value whose last
    handle is gone moves to the front of a bounded history, and the back of the
    history is evicted to make room. The serial operations run one at a time inside
    the aggregator; computing a value happens outside it. */
module LruCache {
  // Any key and value types will do.
  type Key(==, !new)
  type Value(!new)

  datatype Rec = Rec(value: Value, refs: nat, inHistory: bool, ready: bool)

  /** The record map and the history, most recently released key first. */
  datatype Cache = Cache(storage: map<Key, Rec>, lru: seq<Key>)

  datatype Option<T> = None | Some(value: T)

  function Without(s: seq<Key>, k: Key): seq<Key> {
    if s == [] then [] else if s[0] == k then s[1..] else [s[0]] + Without(s[1..], k)
  }

  /** retrieve_serial: the record of `k` gains a reference; the flag says that it is
      new and its value must be computed. */
  function Retrieve(c: Cache, k: Key, blank: Value): (Cache, bool) {
    if k !in c.storage then
      (c.(storage := c.storage[k := Rec(blank, 1, false, false)]), true)
    else
      var rec := c.storage[k];
      (Cache(c.storage[k := rec.(refs := rec.refs + 1, inHistory := false)],
             if rec.inHistory then Without(c.lru, k) else c.lru), false)
  }

  /** Evict the last `n` history entries; None if the history runs out. */
  function Evict(c: Cache, n: nat): Option<Cache>
    decreases n
  {
    if n == 0 then Some(c)
    else if c.lru == [] then None
    else
      var back := c.lru[|c.lru| - 1];
      Evict(Cache(c.storage - {back}, c.lru[..|c.lru| - 1]), n - 1)
  }

  /** signal_end_of_usage_serial for a record in use; None where the source evicts
      from an empty list. */
  function Signal(c: Cache, k: Key, limit: nat): Option<Cache>
    requires k in c.storage && c.storage[k].refs > 0
  {
    var rec := c.storage[k];
    var c1 := c.(storage := c.storage[k := rec.(refs := rec.refs - 1)]);
    if rec.refs > 1 then Some(c1)
    else
      var evicted := Evict(c1, if |c.lru| >= limit then 1 + |c.lru| - limit else 0);
      if evicted.None? || k !in evicted.value.storage then None
      else
        var c2 := evicted.value;
        Some(Cache(c2.storage[k := c2.storage[k].(inHistory := true)], [k] + c2.lru))
  }

  /** The container as the operations update it. */
  class Store {
    const limit: nat
    const blank: Value
    var storage: map<Key, Rec>
    var lru: seq<Key>

    function View(): Cache
      reads this
    {
      Cache(storage, lru)
    }

    constructor (limit: nat, blank: Value)
      ensures View() == Cache(map[], []) && this.limit == limit && this.blank == blank
    {
      this.limit, this.blank, storage, lru := limit, blank, map[], [];
    }

    method RetrieveSerial(k: Key) returns (needed: bool)
      modifies this
      ensures (View(), needed) == Retrieve(old(View()), k, blank)
    {
      needed := false;
      if k !in storage {
        storage := storage[k := Rec(blank, 0, false, false)];
        needed := true;
      } else if storage[k].inHistory {
        lru := Without(lru, k);
        storage := storage[k := storage[k].(inHistory := false)];
      }
      storage := storage[k := storage[k].(refs := storage[k].refs + 1)];
      ghost var was := old(storage);
      assert needed ==> storage == was[k := Rec(blank, 1, false, false)];
      assert !needed ==> storage == was[k := was[k].(refs := was[k].refs + 1, inHistory := false)];
    }

    /** Computing the value happens outside the aggregator, by the thread that was
        told the value is needed. */
    method SetValue(k: Key, v: Value)
      requires k in storage
      modifies this
      ensures View() == old(View()).(storage := old(storage)[k := old(storage)[k].(value := v, ready := true)])
    {
      storage := storage[k := storage[k].(value := v)];
      storage := storage[k := storage[k].(ready := true)];
      assert storage == old(storage)[k := old(storage)[k].(value := v, ready := true)];
    }

    method SignalEnd(k: Key)
      requires k in storage && storage[k].refs > 0
      requires Signal(View(), k, limit).Some?
      modifies this
      ensures Some(View()) == Signal(old(View()), k, limit)
    {
      storage := storage[k := storage[k].(refs := storage[k].refs - 1)];
      if storage[k].refs == 0 {
        if |lru| >= limit {
          var toEvict := 1 + |lru| - limit;
          ghost var goal := Evict(View(), toEvict);
          var i := 0;
          while i < toEvict
            invariant i <= toEvict
            invariant Evict(View(), toEvict - i) == goal
          {
            var back := lru[|lru| - 1];
            lru := lru[..|lru| - 1];
            storage := storage - {back};
            i := i + 1;
          }
        }
        lru := [k] + lru;
        storage := storage[k := storage[k].(inHistory := true)];
      }
    }
  }

  // ----- the cache with its users

  datatype Phase = Computing | AwaitReady | Live

  datatype Handle = Handle(key: Key, phase: Phase)

  /** Users are numbered. `computing` names the user that computes the value of a
      record not ready yet; `clock` counts operations and `released` remembers when
      a key last lost its last handle. */
  datatype System = System(cache: Cache, handles: map<nat, Handle>, computing: map<Key, nat>,
                           clock: nat, released: map<Key, nat>)

  const EMPTY := System(Cache(map[], []), map[], map[], 0, map[])

  datatype Step = Get(h: nat, k: Key) | Compute(h: nat) | Wake(h: nat) | Drop(h: nat)

  predicate Enabled(s: System, st: Step) {
    match st
    case Get(h, _) => h !in s.handles
    case Compute(h) => h in s.handles && s.handles[h].phase == Computing && s.handles[h].key in s.cache.storage
    case Wake(h) => h in s.handles && s.handles[h].phase == AwaitReady
                    && s.handles[h].key in s.cache.storage && s.cache.storage[s.handles[h].key].ready
    case Drop(h) => h in s.handles && s.handles[h].phase == Live
  }

  /** The state after a step; None if the step is undefined. */
  function Fire(s: System, st: Step, f: Key -> Value, blank: Value, limit: nat): Option<System>
    requires Enabled(s, st)
  {
    match st
    case Get(h, k) =>
      var (c, needed) := Retrieve(s.cache, k, blank);
      Some(System(c, s.handles[h := Handle(k, if needed then Computing else AwaitReady)],
                  if needed then s.computing[k := h] else s.computing, s.clock + 1, s.released))
    case Compute(h) =>
      var k := s.handles[h].key;
      Some(System(s.cache.(storage := s.cache.storage[k := s.cache.storage[k].(value := f(k), ready := true)]),
                  s.handles[h := Handle(k, Live)], s.computing - {k}, s.clock + 1, s.released))
    case Wake(h) => Some(s.(handles := s.handles[h := s.handles[h].(phase := Live)], clock := s.clock + 1))
    case Drop(h) =>
      var k := s.handles[h].key;
      if k !in s.cache.storage || s.cache.storage[k].refs == 0 then None
      else
        var c := Signal(s.cache, k, limit);
        if c.None? then None
        else Some(System(c.value, s.handles - {h}, s.computing, s.clock + 1,
                         if s.cache.storage[k].refs == 1 then s.released[k := s.clock] else s.released))
  }

  function Users(handles: map<nat, Handle>, k: Key): set<nat> {
    set h | h in handles && handles[h].key == k
  }

  predicate Distinct(s: seq<Key>) {
    forall i, j :: 0 <= i < j < |s| ==> s[i] != s[j]
  }

  /** A record with as many references as users, in the history iff it has none. */
  ghost predicate RecOk(k: Key, r: Rec, users: nat, inLru: bool, computed: bool, f: Key -> Value) {
    && r.refs == users && r.inHistory == inLru && (inLru <==> users == 0)
    && r.ready == computed && (r.ready ==> r.value == f(k))
  }

  ghost predicate RecordsOk(s: System, f: Key -> Value) {
    forall k :: k in s.cache.storage ==>
      RecOk(k, s.cache.storage[k], |Users(s.handles, k)|, k in s.cache.lru, k !in s.computing, f)
  }

  ghost predicate HandlesOk(s: System) {
    && (forall h :: h in s.handles ==>
          && s.handles[h].key in s.cache.storage
          && (s.handles[h].phase == Computing ==> s.handles[h].key in s.computing && s.computing[s.handles[h].key] == h)
          && (s.handles[h].phase == Live ==> s.handles[h].key !in s.computing))
    && (forall k :: k in s.computing ==> k in s.cache.storage && s.computing[k] in s.handles
                                         && s.handles[s.computing[k]] == Handle(k, Computing))
  }

  /** The history has no duplicates, fits, and is ordered by release, latest first. */
  ghost predicate HistoryOk(lru: seq<Key>, keys: set<Key>, limit: nat, released: map<Key, nat>, clock: nat) {
    && Distinct(lru) && |lru| <= limit
    && (forall k :: k in lru ==> k in keys && k in released && released[k] < clock)
    && (forall i, j :: 0 <= i < j < |lru| ==> released[lru[j]] < released[lru[i]])
  }

  ghost predicate Inv(s: System, f: Key -> Value, limit: nat) {
    && RecordsOk(s, f) && HandlesOk(s)
    && HistoryOk(s.cache.lru, s.cache.storage.Keys, limit, s.released, s.clock)
  }

  lemma InitialInv(f: Key -> Value, limit: nat)
    ensures Inv(EMPTY, f, limit)
  {
  }

  // ----- the operations on the history

  lemma {:induction false} WithoutIs(s: seq<Key>, k: Key, p: nat)
    requires Distinct(s) && p < |s| && s[p] == k
    ensures Without(s, k) == s[..p] + s[p + 1..]
    decreases |s|
  {
    if s[0] == k {
      assert p == 0;
    } else {
      WithoutIs(s[1..], k, p - 1);
      assert s[1..][..p - 1] == s[1..p] && s[1..][p..] == s[p + 1..];
    }
  }

  /** Taking a key out of the history keeps the rest and its order. */
  lemma WithoutOk(lru: seq<Key>, k: Key, keys: set<Key>, limit: nat, released: map<Key, nat>, clock: nat)
    requires HistoryOk(lru, keys, limit, released, clock) && k in lru
    ensures HistoryOk(Without(lru, k), keys, limit, released, clock)
    ensures forall q :: q in Without(lru, k) <==> q in lru && q != k
  {
    hide Without;
    var p :| 0 <= p < |lru| && lru[p] == k;
    WithoutIs(lru, k, p);
    GapMembers(lru, p, Without(lru, k));
    GapOk(lru, p, Without(lru, k), keys, limit, released, clock);
    hide HistoryOk;
  }

  lemma GapOk(lru: seq<Key>, p: nat, r: seq<Key>, keys: set<Key>, limit: nat, released: map<Key, nat>, clock: nat)
    requires HistoryOk(lru, keys, limit, released, clock) && p < |lru| && r == lru[..p] + lru[p + 1..]
    ensures HistoryOk(r, keys, limit, released, clock)
  {
    GapOrdered(lru, p, r);
    assert forall i :: 0 <= i < |r| ==> r[i] in lru;
  }

  function Skip(i: nat, p: nat): nat { if i < p then i else i + 1 }

  lemma GapOrdered(s: seq<Key>, p: nat, r: seq<Key>)
    requires p < |s| && r == s[..p] + s[p + 1..]
    ensures |r| == |s| - 1 && forall i :: 0 <= i < |r| ==> r[i] == s[Skip(i, p)]
  {
  }

  lemma GapMembers(s: seq<Key>, p: nat, r: seq<Key>)
    requires p < |s| && r == s[..p] + s[p + 1..] && Distinct(s)
    ensures forall q :: q in r <==> q in s && q != s[p]
  {
    GapOrdered(s, p, r);
    forall q | q != s[p] && q in s ensures q in r {
      var i :| 0 <= i < |s| && s[i] == q;
      assert r[if i < p then i else i - 1] == q;
    }
    forall q | q in r ensures q in s && q != s[p] {
      var i :| 0 <= i < |r| && r[i] == q;
      assert s[Skip(i, p)] == q;
    }
  }

  /** The `limit` latest releases, when `k` is released now. */
  function Kept(lru: seq<Key>, limit: nat): seq<Key>
    requires limit > 0
  {
    if |lru| == limit then lru[..limit - 1] else lru
  }

  /** What the release of the last handle does: the key goes to the front, and if the
      history was full exactly its oldest entry goes, from the map too. */
  lemma ReleaseIs(c: Cache, k: Key, limit: nat)
    requires Distinct(c.lru) && |c.lru| <= limit && limit > 0
    requires k in c.storage && c.storage[k].refs == 1 && k !in c.lru
    ensures Signal(c, k, limit).Some?
    ensures var c' := Signal(c, k, limit).value;
            && c'.lru == [k] + Kept(c.lru, limit)
            && c'.storage.Keys == (if |c.lru| == limit then c.storage.Keys - {c.lru[limit - 1]} else c.storage.Keys)
            && k in c'.storage && c'.storage[k] == c.storage[k].(refs := 0, inHistory := true)
            && forall q :: q in c'.storage && q != k ==> c'.storage[q] == c.storage[q]
  {
    var rec := c.storage[k];
    var c1 := c.(storage := c.storage[k := rec.(refs := 0)]);
    if |c.lru| == limit {
      assert Evict(c1, 1) == Evict(Cache(c1.storage - {c.lru[limit - 1]}, c.lru[..limit - 1]), 0);
    }
  }

  /** Releasing is defined unless it is the last release and the history size is 0:
      then the source evicts from an empty list. */
  lemma ReleaseDefined(c: Cache, k: Key, limit: nat)
    requires Distinct(c.lru) && |c.lru| <= limit
    requires k in c.storage && c.storage[k].refs > 0 && k !in c.lru
    ensures Signal(c, k, limit).Some? <==> limit > 0 || c.storage[k].refs > 1
  {
    if c.storage[k].refs == 1 && limit > 0 {
      ReleaseIs(c, k, limit);
    }
  }

  lemma PushedFront(lru: seq<Key>, k: Key, keys: set<Key>, limit: nat, released: map<Key, nat>, clock: nat)
    requires HistoryOk(lru, keys, limit, released, clock) && k !in lru && k in keys && limit > 0
    ensures var keys' := if |lru| == limit then keys - {lru[limit - 1]} else keys;
            HistoryOk([k] + Kept(lru, limit), keys', limit, released[k := clock], clock + 1)
    ensures forall q :: q in [k] + Kept(lru, limit) <==>
              q == k || (q in lru && !(|lru| == limit && q == lru[limit - 1]))
  {
    var kept := Kept(lru, limit);
    forall q | q in lru && !(|lru| == limit && q == lru[limit - 1]) ensures q in kept {
      var i :| 0 <= i < |lru| && lru[i] == q;
      assert i < |kept| && kept[i] == q;
    }
    forall q | q in kept ensures q in lru && !(|lru| == limit && q == lru[limit - 1]) {
      var i :| 0 <= i < |kept| && kept[i] == q;
      assert lru[i] == q;
    }
  }

  // ----- users

  lemma UsersAdded(handles: map<nat, Handle>, h: nat, x: Handle)
    requires h !in handles
    ensures |Users(handles[h := x], x.key)| == |Users(handles, x.key)| + 1
    ensures forall q :: q != x.key ==> Users(handles[h := x], q) == Users(handles, q)
  {
    assert Users(handles[h := x], x.key) == Users(handles, x.key) + {h};
  }

  lemma UsersRemoved(handles: map<nat, Handle>, h: nat)
    requires h in handles
    ensures |Users(handles - {h}, handles[h].key)| == |Users(handles, handles[h].key)| - 1
    ensures forall q :: q != handles[h].key ==> Users(handles - {h}, q) == Users(handles, q)
  {
    assert Users(handles, handles[h].key) == Users(handles - {h}, handles[h].key) + {h};
  }

  lemma UsersSame(handles: map<nat, Handle>, h: nat, p: Phase)
    requires h in handles
    ensures forall q :: Users(handles[h := handles[h].(phase := p)], q) == Users(handles, q)
  {
  }

  lemma UserCounts(handles: map<nat, Handle>, h: nat)
    requires h in handles
    ensures |Users(handles, handles[h].key)| > 0
  {
    assert h in Users(handles, handles[h].key);
  }

  // ----- every step keeps the invariant

  lemma NewKey(s: System, k: Key)
    requires HandlesOk(s) && k !in s.cache.storage
    ensures |Users(s.handles, k)| == 0 && k !in s.computing
  {
    assert Users(s.handles, k) == {};
  }

  /** What retrieving does to the history: the key leaves it. */
  lemma RetrieveHistory(s: System, k: Key, f: Key -> Value, blank: Value, limit: nat)
    requires Inv(s, f, limit)
    ensures var c := Retrieve(s.cache, k, blank).0;
            && c.storage.Keys == s.cache.storage.Keys + {k}
            && HistoryOk(c.lru, c.storage.Keys, limit, s.released, s.clock + 1)
            && forall q :: q in c.lru <==> q in s.cache.lru && q != k
  {
    hide Without, Users, HandlesOk;
    if k in s.cache.storage && k in s.cache.lru {
      WithoutOk(s.cache.lru, k, s.cache.storage.Keys, limit, s.released, s.clock);
    }
  }

  lemma KeepGet(s: System, h: nat, k: Key, f: Key -> Value, blank: Value, limit: nat)
    requires Inv(s, f, limit) && h !in s.handles
    ensures Inv(Fire(s, Get(h, k), f, blank, limit).value, f, limit)
  {
    hide Without, Users, HistoryOk;
    var s' := Fire(s, Get(h, k), f, blank, limit).value;
    UsersAdded(s.handles, h, s'.handles[h]);
    if k !in s.cache.storage { NewKey(s, k); }
    RetrieveHistory(s, k, f, blank, limit);
    GetRecords(s, h, k, f, blank, limit);
    GetHandles(s, h, k, f, blank, limit);
  }

  lemma GetRecords(s: System, h: nat, k: Key, f: Key -> Value, blank: Value, limit: nat)
    requires Inv(s, f, limit) && h !in s.handles
    ensures RecordsOk(Fire(s, Get(h, k), f, blank, limit).value, f)
  {
    hide Without, Users, HistoryOk;
    var s' := Fire(s, Get(h, k), f, blank, limit).value;
    RetrieveHistory(s, k, f, blank, limit);
    UsersAdded(s.handles, h, s'.handles[h]);
    if k !in s.cache.storage { NewKey(s, k); }
    hide HandlesOk;
    forall q | q in s'.cache.storage
      ensures RecOk(q, s'.cache.storage[q], |Users(s'.handles, q)|, q in s'.cache.lru, q !in s'.computing, f)
    {
      if q in s.cache.storage {
        assert RecOk(q, s.cache.storage[q], |Users(s.handles, q)|, q in s.cache.lru, q !in s.computing, f);
      }
    }
  }

  lemma GetHandles(s: System, h: nat, k: Key, f: Key -> Value, blank: Value, limit: nat)
    requires Inv(s, f, limit) && h !in s.handles
    ensures HandlesOk(Fire(s, Get(h, k), f, blank, limit).value)
  {
    hide Without, Users, HistoryOk, RecordsOk;
    if k !in s.cache.storage { NewKey(s, k); }
  }

  lemma KeepCompute(s: System, h: nat, f: Key -> Value, blank: Value, limit: nat)
    requires Inv(s, f, limit) && Enabled(s, Compute(h))
    ensures Inv(Fire(s, Compute(h), f, blank, limit).value, f, limit)
  {
    hide Users, HistoryOk;
    var s' := Fire(s, Compute(h), f, blank, limit).value;
    UsersSame(s.handles, h, Live);
    Later(s.cache.lru, s.cache.storage.Keys, limit, s.released, s.clock);
    assert s'.cache.storage.Keys == s.cache.storage.Keys;
    assert s'.handles == s.handles[h := s.handles[h].(phase := Live)];
    assert HandlesOk(s');
    hide HandlesOk;
    forall q | q in s'.cache.storage
      ensures RecOk(q, s'.cache.storage[q], |Users(s'.handles, q)|, q in s'.cache.lru, q !in s'.computing, f)
    {
      assert RecOk(q, s.cache.storage[q], |Users(s.handles, q)|, q in s.cache.lru, q !in s.computing, f);
    }
  }

  lemma KeepWake(s: System, h: nat, f: Key -> Value, blank: Value, limit: nat)
    requires Inv(s, f, limit) && Enabled(s, Wake(h))
    ensures Inv(Fire(s, Wake(h), f, blank, limit).value, f, limit)
  {
    hide Users, HistoryOk;
    UsersSame(s.handles, h, Live);
    Later(s.cache.lru, s.cache.storage.Keys, limit, s.released, s.clock);
  }

  lemma Later(lru: seq<Key>, keys: set<Key>, limit: nat, released: map<Key, nat>, clock: nat)
    requires HistoryOk(lru, keys, limit, released, clock)
    ensures HistoryOk(lru, keys, limit, released, clock + 1)
  {
  }

  /** A handle can be dropped in a well-formed state; its entry is outside the history. */
  lemma DropDefined(s: System, h: nat, f: Key -> Value, blank: Value, limit: nat)
    requires Inv(s, f, limit) && Enabled(s, Drop(h)) && limit > 0
    ensures var k := s.handles[h].key;
            k in s.cache.storage && s.cache.storage[k].refs > 0 && k !in s.cache.lru
            && Signal(s.cache, k, limit).Some?
    ensures Fire(s, Drop(h), f, blank, limit).Some?
  {
    UserCounts(s.handles, h);
    ReleaseDefined(s.cache, s.handles[h].key, limit);
  }

  lemma KeepDrop(s: System, h: nat, f: Key -> Value, blank: Value, limit: nat)
    requires Inv(s, f, limit) && Enabled(s, Drop(h)) && limit > 0
    ensures Fire(s, Drop(h), f, blank, limit).Some?
    ensures Inv(Fire(s, Drop(h), f, blank, limit).value, f, limit)
  {
    hide Users, HistoryOk;
    DropDefined(s, h, f, blank, limit);
    UsersRemoved(s.handles, h);
    Later(s.cache.lru, s.cache.storage.Keys, limit, s.released, s.clock);
    var k := s.handles[h].key;
    if s.cache.storage[k].refs == 1 {
      KeepLastDrop(s, h, f, blank, limit);
    } else {
      var s' := Fire(s, Drop(h), f, blank, limit).value;
      assert s'.cache.storage.Keys == s.cache.storage.Keys;
    }
  }

  /** The effect of dropping the last handle `h` of a key. */
  ghost predicate LastDropped(s: System, s': System, h: nat, limit: nat)
    requires h in s.handles && s.handles[h].key in s.cache.storage && limit > 0
  {
    var k, c, lru := s.handles[h].key, s'.cache, s.cache.lru;
    && s'.handles == s.handles - {h} && s'.computing == s.computing
    && c.storage.Keys == (if |lru| == limit then s.cache.storage.Keys - {lru[limit - 1]} else s.cache.storage.Keys)
    && k in c.storage && c.storage[k] == s.cache.storage[k].(refs := 0, inHistory := true)
    && (forall q :: q in c.storage && q != k ==> c.storage[q] == s.cache.storage[q])
    && (forall q :: q in c.lru <==> q == k || (q in lru && !(|lru| == limit && q == lru[limit - 1])))
    && HistoryOk(c.lru, c.storage.Keys, limit, s'.released, s'.clock)
  }

  lemma LastDropEffect(s: System, h: nat, f: Key -> Value, blank: Value, limit: nat)
    requires Inv(s, f, limit) && Enabled(s, Drop(h)) && limit > 0
    requires s.handles[h].key in s.cache.storage && s.cache.storage[s.handles[h].key].refs == 1
    ensures Fire(s, Drop(h), f, blank, limit).Some?
    ensures LastDropped(s, Fire(s, Drop(h), f, blank, limit).value, h, limit)
  {
    hide Users, HandlesOk, RecordsOk;
    DropDefined(s, h, f, blank, limit);
    ReleaseIs(s.cache, s.handles[h].key, limit);
    PushedFront(s.cache.lru, s.handles[h].key, s.cache.storage.Keys, limit, s.released, s.clock);
    hide Signal, HistoryOk, Kept, Distinct;
  }

  lemma KeepLastDrop(s: System, h: nat, f: Key -> Value, blank: Value, limit: nat)
    requires Inv(s, f, limit) && Enabled(s, Drop(h)) && limit > 0
    requires s.handles[h].key in s.cache.storage && s.cache.storage[s.handles[h].key].refs == 1
    ensures Fire(s, Drop(h), f, blank, limit).Some?
    ensures Inv(Fire(s, Drop(h), f, blank, limit).value, f, limit)
  {
    LastDropEffect(s, h, f, blank, limit);
    var s' := Fire(s, Drop(h), f, blank, limit).value;
    hide Fire;
    LastDropHandles(s, s', h, f, limit);
    LastDropRecords(s, s', h, f, limit);
    hide RecordsOk, HandlesOk;
  }

  lemma LastDropRecords(s: System, s': System, h: nat, f: Key -> Value, limit: nat)
    requires Inv(s, f, limit) && Enabled(s, Drop(h)) && limit > 0
    requires s.handles[h].key in s.cache.storage && s.cache.storage[s.handles[h].key].refs == 1
    requires LastDropped(s, s', h, limit)
    ensures RecordsOk(s', f)
  {
    hide HandlesOk, HistoryOk;
    UsersRemoved(s.handles, h);
    hide Users;
    forall q | q in s'.cache.storage
      ensures RecOk(q, s'.cache.storage[q], |Users(s'.handles, q)|, q in s'.cache.lru, q !in s'.computing, f)
    {
      assert RecOk(q, s.cache.storage[q], |Users(s.handles, q)|, q in s.cache.lru, q !in s.computing, f);
    }
  }

  /** Nobody holds an entry of the history. */
  lemma Unheld(s: System, k: Key, f: Key -> Value, limit: nat)
    requires Inv(s, f, limit) && k in s.cache.lru
    ensures forall g :: g in s.handles ==> s.handles[g].key != k
    ensures k !in s.computing
  {
    hide HandlesOk;
    assert k in s.cache.storage.Keys;
    assert RecOk(k, s.cache.storage[k], |Users(s.handles, k)|, k in s.cache.lru, k !in s.computing, f);
    forall g | g in s.handles ensures s.handles[g].key != k { UserCounts(s.handles, g); }
    if k in s.computing { Computed(s, k); }
  }

  lemma Computed(s: System, k: Key)
    requires HandlesOk(s) && k in s.computing
    ensures s.computing[k] in s.handles && s.handles[s.computing[k]].key == k
  {
  }

  lemma LastDropHandles(s: System, s': System, h: nat, f: Key -> Value, limit: nat)
    requires Inv(s, f, limit) && Enabled(s, Drop(h)) && limit > 0
    requires s.handles[h].key in s.cache.storage && s.cache.storage[s.handles[h].key].refs == 1
    requires LastDropped(s, s', h, limit)
    ensures HandlesOk(s')
  {
    hide HistoryOk, RecordsOk;
    if |s.cache.lru| == limit {
      var e := s.cache.lru[limit - 1];
      assert e in s.cache.lru;
      Unheld(s, e, f, limit);
    }
  }

  lemma StepKeepsInv(s: System, st: Step, f: Key -> Value, blank: Value, limit: nat)
    requires Inv(s, f, limit) && Enabled(s, st) && limit > 0
    ensures Fire(s, st, f, blank, limit).Some?
    ensures Inv(Fire(s, st, f, blank, limit).value, f, limit)
  {
    hide Inv;
    match st {
      case Get(h, k) => KeepGet(s, h, k, f, blank, limit);
      case Compute(h) => KeepCompute(s, h, f, blank, limit);
      case Wake(h) => KeepWake(s, h, f, blank, limit);
      case Drop(h) => KeepDrop(s, h, f, blank, limit);
    }
  }

  ghost predicate Run(s: System, run: seq<Step>, s': System, f: Key -> Value, blank: Value, limit: nat)
    decreases |run|
  {
    if run == [] then s == s'
    else
      && Enabled(s, run[0]) && Fire(s, run[0], f, blank, limit).Some?
      && Run(Fire(s, run[0], f, blank, limit).value, run[1..], s', f, blank, limit)
  }

  lemma {:induction false} RunKeepsInv(s: System, run: seq<Step>, s': System, f: Key -> Value, blank: Value, limit: nat)
    requires Inv(s, f, limit) && Run(s, run, s', f, blank, limit) && limit > 0
    ensures Inv(s', f, limit)
    decreases |run|
  {
    hide Inv, Fire;
    if run != [] {
      StepKeepsInv(s, run[0], f, blank, limit);
      RunKeepsInv(Fire(s, run[0], f, blank, limit).value, run[1..], s', f, blank, limit);
    }
  }

  /** In every reachable state a live handle sees the value of its key, and an entry
      with a handle is present and outside the history; counts are numbers of
      handles; the history holds exactly the unused entries, the latest released
      first; and no step is undefined. */
  lemma ReachableSafe(run: seq<Step>, s: System, f: Key -> Value, blank: Value, limit: nat)
    requires limit > 0 && Run(EMPTY, run, s, f, blank, limit)
    ensures forall h :: h in s.handles ==>
              && s.handles[h].key in s.cache.storage && s.handles[h].key !in s.cache.lru
              && (s.handles[h].phase == Live ==> s.cache.storage[s.handles[h].key].value == f(s.handles[h].key))
    ensures forall k :: k in s.cache.storage ==>
              && s.cache.storage[k].refs == |Users(s.handles, k)|
              && (k in s.cache.lru <==> s.cache.storage[k].refs == 0)
    ensures HistoryOk(s.cache.lru, s.cache.storage.Keys, limit, s.released, s.clock)
    ensures forall st :: Enabled(s, st) ==> Fire(s, st, f, blank, limit).Some?
  {
    InitialInv(f, limit);
    RunKeepsInv(EMPTY, run, s, f, blank, limit);
    forall h | h in s.handles ensures s.handles[h].key !in s.cache.lru {
      UserCounts(s.handles, h);
    }
    forall st | Enabled(s, st) ensures Fire(s, st, f, blank, limit).Some? {
      StepKeepsInv(s, st, f, blank, limit);
    }
  }

  /** With a history of size 0 already the first release of a value is undefined: two
      steps lead to it. */
  lemma NoHistory(k: Key, f: Key -> Value, blank: Value) returns (s: System)
    ensures Run(EMPTY, [Get(0, k), Compute(0)], s, f, blank, 0)
    ensures Enabled(s, Drop(0)) && Fire(s, Drop(0), f, blank, 0).None?
  {
    var s1 := Fire(EMPTY, Get(0, k), f, blank, 0).value;
    s := Fire(s1, Compute(0), f, blank, 0).value;
    assert [Get(0, k), Compute(0)][1..] == [Compute(0)] && [Compute(0)][1..] == [];
    assert Run(s, [], s, f, blank, 0) && Run(s1, [Compute(0)], s, f, blank, 0);
  }
}

/** What the cache is for: a value is computed once, and again only after it was evicted.
    Whoever asks for it in between gets it as it is. */
module LruReuse {
  import opened LruCache

  /** A record that is there is reused, in the history or not: its value stays and need
      not be computed. */
  lemma Reused(c: Cache, k: Key, blank: Value)
    ensures var (c', needed) := Retrieve(c, k, blank);
            && (needed <==> k !in c.storage)
            && k in c'.storage && !c'.storage[k].inHistory
            && (k in c.storage ==> c'.storage[k].value == c.storage[k].value)
            && (c'.storage[k].ready <==> k in c.storage && c.storage[k].ready)
            && c'.storage[k].refs == (if k in c.storage then c.storage[k].refs + 1 else 1)
            && forall q :: q != k ==> (q in c'.storage <==> q in c.storage)
                                      && (q in c.storage ==> c'.storage[q] == c.storage[q])
  {
  }

  // ----- computations and evictions

  predicate Computes(s: System, st: Step, k: Key) {
    st.Compute? && st.h in s.handles && s.handles[st.h].key == k
  }

  predicate Evicts(s: System, s': System, k: Key) {
    k in s.cache.storage && k !in s'.cache.storage
  }

  /** The value of the key is there. */
  function Have(s: System, k: Key): nat {
    if k in s.cache.storage && s.cache.storage[k].ready then 1 else 0
  }

  function One(b: bool): nat { if b then 1 else 0 }

  /** How often the key is computed in a run, and how often it is evicted. */
  ghost function Computations(s: System, run: seq<Step>, k: Key, f: Key -> Value, blank: Value, limit: nat): nat
    decreases |run|
  {
    if run == [] || !Enabled(s, run[0]) || Fire(s, run[0], f, blank, limit).None? then 0
    else
      One(Computes(s, run[0], k)) +
      Computations(Fire(s, run[0], f, blank, limit).value, run[1..], k, f, blank, limit)
  }

  ghost function Evictions(s: System, run: seq<Step>, k: Key, f: Key -> Value, blank: Value, limit: nat): nat
    decreases |run|
  {
    if run == [] || !Enabled(s, run[0]) || Fire(s, run[0], f, blank, limit).None? then 0
    else
      var s' := Fire(s, run[0], f, blank, limit).value;
      One(Evicts(s, s', k)) + Evictions(s', run[1..], k, f, blank, limit)
  }

  lemma Ready(s: System, k: Key, f: Key -> Value, limit: nat)
    requires Inv(s, f, limit) && k in s.cache.storage
    ensures s.cache.storage[k].ready <==> k !in s.computing
    ensures k in s.cache.lru ==> s.cache.storage[k].ready
  {
    hide HistoryOk;
    assert RecOk(k, s.cache.storage[k], |Users(s.handles, k)|, k in s.cache.lru, k !in s.computing, f);
    if k in s.cache.lru { Unheld(s, k, f, limit); }
  }

  lemma GetCounts(s: System, h: nat, q: Key, k: Key, f: Key -> Value, blank: Value, limit: nat)
    requires Inv(s, f, limit) && Enabled(s, Get(h, q))
    ensures var s' := Fire(s, Get(h, q), f, blank, limit).value;
            Have(s', k) == Have(s, k) && !Evicts(s, s', k)
  {
    Reused(s.cache, q, blank);
    hide Retrieve, Inv;
  }

  lemma ComputeCounts(s: System, h: nat, k: Key, f: Key -> Value, blank: Value, limit: nat)
    requires Inv(s, f, limit) && Enabled(s, Compute(h))
    ensures var s' := Fire(s, Compute(h), f, blank, limit).value;
            Have(s', k) == Have(s, k) + One(Computes(s, Compute(h), k)) && !Evicts(s, s', k)
  {
    Ready(s, s.handles[h].key, f, limit);
    hide RecordsOk, HistoryOk;
  }

  lemma DropCounts(s: System, h: nat, k: Key, f: Key -> Value, blank: Value, limit: nat)
    requires Inv(s, f, limit) && Enabled(s, Drop(h)) && limit > 0
    ensures Fire(s, Drop(h), f, blank, limit).Some?
    ensures var s' := Fire(s, Drop(h), f, blank, limit).value;
            && Have(s', k) + One(Evicts(s, s', k)) == Have(s, k)
            && (Evicts(s, s', k) ==> |s.cache.lru| == limit && k == s.cache.lru[limit - 1])
  {
    DropDefined(s, h, f, blank, limit);
    var q := s.handles[h].key;
    if s.cache.storage[q].refs == 1 {
      LastDropEffect(s, h, f, blank, limit);
      var s' := Fire(s, Drop(h), f, blank, limit).value;
      LastDropCounts(s, s', h, k, f, limit);
      hide *;
    } else {
      hide Inv;
    }
  }

  lemma LastDropCounts(s: System, s': System, h: nat, k: Key, f: Key -> Value, limit: nat)
    requires Inv(s, f, limit) && limit > 0 && h in s.handles && s.handles[h].key in s.cache.storage
    requires LastDropped(s, s', h, limit)
    ensures Have(s', k) + One(Evicts(s, s', k)) == Have(s, k)
    ensures Evicts(s, s', k) ==> |s.cache.lru| == limit && k == s.cache.lru[limit - 1]
  {
    if |s.cache.lru| == limit {
      var oldest := s.cache.lru[limit - 1];
      assert oldest in s.cache.lru;
      InStorage(s, oldest, f, limit);
      Ready(s, oldest, f, limit);
    }
    hide Inv, HistoryOk;
  }

  lemma InStorage(s: System, k: Key, f: Key -> Value, limit: nat)
    requires Inv(s, f, limit) && k in s.cache.lru
    ensures k in s.cache.storage
  {
    hide RecordsOk, HandlesOk;
    assert k in s.cache.storage.Keys;
  }

  lemma StepCounts(s: System, st: Step, k: Key, f: Key -> Value, blank: Value, limit: nat)
    requires Inv(s, f, limit) && Enabled(s, st) && limit > 0
    ensures Fire(s, st, f, blank, limit).Some?
    ensures var s' := Fire(s, st, f, blank, limit).value;
            Have(s', k) + One(Evicts(s, s', k)) == Have(s, k) + One(Computes(s, st, k))
  {
    match st {
      case Get(h, q) => GetCounts(s, h, q, k, f, blank, limit);
      case Compute(h) => ComputeCounts(s, h, k, f, blank, limit);
      case Wake(h) => hide Inv;
      case Drop(h) => DropCounts(s, h, k, f, blank, limit);
    }
  }

  /** A run computes a value as often as it evicts it, and once more if the value was not
      there before and is afterwards. So between two computations it was evicted. */
  lemma {:induction false} ComputedPerEviction(s: System, run: seq<Step>, s': System, k: Key,
                                               f: Key -> Value, blank: Value, limit: nat)
    requires Inv(s, f, limit) && Run(s, run, s', f, blank, limit) && limit > 0
    ensures Computations(s, run, k, f, blank, limit) + Have(s, k)
         == Evictions(s, run, k, f, blank, limit) + Have(s', k)
    decreases |run|
  {
    hide Inv, Fire, Enabled, Have, Evicts, Computes;
    if run != [] {
      StepCounts(s, run[0], k, f, blank, limit);
      StepKeepsInv(s, run[0], f, blank, limit);
      ComputedPerEviction(Fire(s, run[0], f, blank, limit).value, run[1..], s', k, f, blank, limit);
    }
  }

  /** In any run of an empty cache. */
  lemma ComputedOnce(run: seq<Step>, s: System, k: Key, f: Key -> Value, blank: Value, limit: nat)
    requires Run(EMPTY, run, s, f, blank, limit) && limit > 0
    ensures Computations(EMPTY, run, k, f, blank, limit) == Evictions(EMPTY, run, k, f, blank, limit) + Have(s, k)
  {
    InitialInv(f, limit);
    hide Inv;
    ComputedPerEviction(EMPTY, run, s, k, f, blank, limit);
  }

  /** Only a release of another key evicts one, and only the key unused for longest, when
      the history is full. */
  lemma OnlyOldestEvicted(s: System, st: Step, k: Key, f: Key -> Value, blank: Value, limit: nat)
    requires Inv(s, f, limit) && Enabled(s, st) && limit > 0
    ensures Fire(s, st, f, blank, limit).Some?
    ensures Evicts(s, Fire(s, st, f, blank, limit).value, k) ==>
              && st.Drop? && s.handles[st.h].key != k
              && |s.cache.lru| == limit && k == s.cache.lru[limit - 1]
              && forall g :: g in s.handles ==> s.handles[g].key != k
  {
    match st {
      case Get(h, q) => GetCounts(s, h, q, k, f, blank, limit);
      case Compute(h) => ComputeCounts(s, h, k, f, blank, limit);
      case Wake(h) => hide Inv;
      case Drop(h) =>
        DropCounts(s, h, k, f, blank, limit);
        if |s.cache.lru| == limit && k == s.cache.lru[limit - 1] {
          assert k in s.cache.lru;
          Unheld(s, k, f, limit);
        }
    }
  }

  /** Who asks for a value that is there has it without waiting: its handle can go live at
      once, and sees the value. */
  lemma HadAtOnce(s: System, h: nat, k: Key, f: Key -> Value, blank: Value, limit: nat)
    requires Inv(s, f, limit) && Enabled(s, Get(h, k)) && Have(s, k) == 1
    ensures var s' := Fire(s, Get(h, k), f, blank, limit).value;
            && Enabled(s', Wake(h)) && s'.cache.storage[k].value == s.cache.storage[k].value == f(k)
            && var s'' := Fire(s', Wake(h), f, blank, limit).value;
               s''.handles[h] == Handle(k, Live) && s''.cache.storage[k].value == f(k)
  {
    Reused(s.cache, k, blank);
    assert RecOk(k, s.cache.storage[k], |Users(s.handles, k)|, k in s.cache.lru, k !in s.computing, f);
    hide Retrieve, RecordsOk, HandlesOk, HistoryOk;
  }

  // ----- handles are what was asked for

  datatype Asked = Asked(key: Key, given: bool)

  function Next(m: map<nat, Asked>, st: Step): map<nat, Asked> {
    match st
    case Get(h, k) => m[h := Asked(k, false)]
    case Compute(h) => if h in m then m[h := Asked(m[h].key, true)] else m
    case Wake(h) => if h in m then m[h := Asked(m[h].key, true)] else m
    case Drop(h) => m - {h}
  }

  /** The gets of a run that were not dropped yet, and whether their value was given. */
  function Open(m: map<nat, Asked>, run: seq<Step>): map<nat, Asked>
    decreases |run|
  {
    if run == [] then m else Open(Next(m, run[0]), run[1..])
  }

  function HandlesOf(s: System): map<nat, Asked> {
    map h | h in s.handles :: Asked(s.handles[h].key, s.handles[h].phase == Live)
  }

  lemma StepHandles(s: System, st: Step, f: Key -> Value, blank: Value, limit: nat)
    requires Enabled(s, st) && Fire(s, st, f, blank, limit).Some?
    ensures HandlesOf(Fire(s, st, f, blank, limit).value) == Next(HandlesOf(s), st)
  {
    hide Retrieve, Signal;
  }

  /** The handles of a reachable state are exactly the gets of the run not dropped yet, each
      with its key, and those are live that have been given their value. */
  lemma {:induction false} HandlesAsked(s: System, run: seq<Step>, s': System,
                                        f: Key -> Value, blank: Value, limit: nat)
    requires Run(s, run, s', f, blank, limit)
    ensures HandlesOf(s') == Open(HandlesOf(s), run)
    decreases |run|
  {
    hide Fire, Enabled, HandlesOf, Next;
    if run != [] {
      StepHandles(s, run[0], f, blank, limit);
      HandlesAsked(Fire(s, run[0], f, blank, limit).value, run[1..], s', f, blank, limit);
    }
  }
}

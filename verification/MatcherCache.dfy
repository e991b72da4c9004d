/** SFBMCache's cache of trained matchers: every access ages the others by one, and when
    the cache is full the one noted as having the least life makes room. */
module MatcherCache {
  type Matcher(!new)

  datatype Option<T> = None | Some(value: T)

  function Aged(life: int): int { if life - 1 >= 0 then life - 1 else life }

  /** tic: everyone but `ignore` ages. */
  function Ticked(lives: map<int, int>, ignore: int): map<int, int> {
    map k | k in lives :: if k == ignore then lives[k] else Aged(lives[k])
  }

  /** The first key, in key order, of those with the least life. */
  ghost predicate Weakest(lives: map<int, int>, v: int) {
    v in lives && forall k :: k in lives ==> lives[v] < lives[k] || (lives[v] == lives[k] && v <= k)
  }

  /** At most one above the least life. */
  ghost predicate AlmostWeakest(lives: map<int, int>, v: int) {
    v in lives && forall k :: k in lives ==> lives[v] <= lives[k] + 1
  }

  ghost predicate Alive(lives: map<int, int>) { forall k :: k in lives ==> lives[k] >= 0 }

  lemma TickedIs(lives: map<int, int>, ignore: int)
    requires Alive(lives)
    ensures Alive(Ticked(lives, ignore)) && Ticked(lives, ignore).Keys == lives.Keys
    ensures ignore in lives ==>
              && Ticked(lives, ignore)[ignore] == lives[ignore]
              && Alive(Ticked(lives, ignore)[ignore := lives[ignore] + 1])
  {
  }

  // ----- how lives fall

  /** Ageing again and again, one access after the other. */
  function TickedTimes(lives: map<int, int>, ids: seq<int>): map<int, int>
    decreases |ids|
  {
    if ids == [] then lives else TickedTimes(Ticked(lives, ids[0]), ids[1..])
  }

  /** Over n accesses to others a life falls by n, and stays at 0; one's own accesses do not
      count. */
  lemma {:induction false} LifeFalls(lives: map<int, int>, ids: seq<int>, k: int)
    requires k in lives && lives[k] >= 0
    ensures k in TickedTimes(lives, ids)
    ensures var n := |ids| - Uses(ids, k);
            TickedTimes(lives, ids)[k] == if n <= lives[k] then lives[k] - n else 0
    decreases |ids|
  {
    if ids != [] {
      UsesWithin(ids[1..], k);
      LifeFalls(Ticked(lives, ids[0]), ids[1..], k);
      assert |ids| - Uses(ids, k) == |ids[1..]| - Uses(ids[1..], k) + (if ids[0] == k then 0 else 1);
    }
  }

  function Uses(ids: seq<int>, k: int): nat {
    if ids == [] then 0 else (if ids[0] == k then 1 else 0) + Uses(ids[1..], k)
  }

  lemma {:induction false} UsesWithin(ids: seq<int>, k: int)
    ensures Uses(ids, k) <= |ids|
    decreases |ids|
  {
    if ids != [] { UsesWithin(ids[1..], k); }
  }

  lemma WeakestKept(lives: map<int, int>, v: int, id: int)
    ensures Weakest(lives, v) ==> AlmostWeakest(lives, v)
    ensures Weakest(lives, v) && id in lives ==> AlmostWeakest(lives[id := lives[id] + 1], v)
  {
  }

  lemma RemoveSize<V>(m: map<int, V>, k: int)
    ensures |m - {k}| == |m| - (if k in m then 1 else 0)
  {
    var rest := m - {k};
    assert rest.Keys == m.Keys - {k};
    assert |m| == |m.Keys| && |rest| == |rest.Keys|;
  }

  lemma AddSize<V>(m: map<int, V>, k: int, v: V)
    ensures |m[k := v]| == |m| + (if k in m then 0 else 1)
  {
    var more := m[k := v];
    assert more.Keys == m.Keys + {k};
    assert |m| == |m.Keys| && |more| == |more.Keys|;
  }

  /** std::map iterates over its keys in increasing order. */
  function WithKey(keys: seq<int>, k: int): seq<int> {
    if keys == [] || k < keys[0] then [k] + keys
    else if k == keys[0] then keys
    else [keys[0]] + WithKey(keys[1..], k)
  }

  function WithoutKey(keys: seq<int>, k: int): seq<int> {
    if keys == [] then []
    else if k == keys[0] then keys[1..]
    else [keys[0]] + WithoutKey(keys[1..], k)
  }

  ghost predicate KeysOf(s: set<int>, keys: seq<int>) {
    && (forall k :: k in keys <==> k in s)
    && Increasing(keys)
  }

  ghost predicate Increasing(keys: seq<int>) {
    forall i, j :: 0 <= i < j < |keys| ==> keys[i] < keys[j]
  }

  lemma IncreasingTail(keys: seq<int>)
    requires keys != []
    ensures Increasing(keys) <==> Increasing(keys[1..]) && forall k :: k in keys[1..] ==> keys[0] < k
  {
    if Increasing(keys[1..]) && forall k :: k in keys[1..] ==> keys[0] < k {
      forall i, j | 0 <= i < j < |keys| ensures keys[i] < keys[j] {
        assert keys[j] == keys[1..][j - 1] && keys[j] in keys[1..];
        if i > 0 { assert keys[i] == keys[1..][i - 1]; }
      }
    }
  }

  lemma {:induction false} WithKeyIs(keys: seq<int>, k: int)
    requires Increasing(keys)
    ensures Increasing(WithKey(keys, k)) && forall j :: j in WithKey(keys, k) <==> j in keys || j == k
    decreases |keys|
  {
    var r := WithKey(keys, k);
    if keys != [] {
      IncreasingTail(keys);
      hide Increasing;
      IncreasingTail(r);
      if k < keys[0] {
        assert r[1..] == keys;
      } else if k > keys[0] {
        assert r[1..] == WithKey(keys[1..], k);
        WithKeyIs(keys[1..], k);
      }
    }
  }

  lemma {:induction false} WithoutKeyIs(keys: seq<int>, k: int)
    requires Increasing(keys)
    ensures Increasing(WithoutKey(keys, k)) && forall j :: j in WithoutKey(keys, k) <==> j in keys && j != k
    decreases |keys|
  {
    var r := WithoutKey(keys, k);
    if keys != [] {
      IncreasingTail(keys);
      hide Increasing;
      if k != keys[0] {
        assert r[1..] == WithoutKey(keys[1..], k);
        WithoutKeyIs(keys[1..], k);
        IncreasingTail(r);
      }
    }
  }

  class SFBMCache {
    const capacity: nat
    const life: nat
    const loadingTimeWeight: nat
    const discardLessValuable: bool
    var cache: map<int, Matcher>
    /** The keys of the cache, in the order of std::map. */
    var keys: seq<int>
    var lives: map<int, int>
    var patterns: set<int>
    var loadingCount: map<int, nat>
    var size: int
    var requests: nat
    var hits: nat
    var misses: nat
    var lowestLifeKey: int

    /** Every load from the database so far. */
    ghost var loads: multiset<int>
    /** What the database last returned for a matcher. */
    ghost var known: map<int, Matcher>

    ghost predicate Valid()
      reads this
    {
      && Counted() && Fit(Now(), capacity, size, lowestLifeKey)
      && Current(cache, known)
    }

    function Now(): Slots
      reads this
    {
      Slots(cache, keys, lives)
    }

    ghost predicate Counted()
      reads this
    {
      hits + misses == requests && |loads| == misses && CountsAre(loadingCount, loads)
    }

    constructor (capacity: nat, life: nat, loadingTimeWeight: nat, discardLessValuable: bool)
      ensures Valid() && cache == map[] && requests == 0 && known == map[] && loads == multiset{}
      ensures this.capacity == capacity && this.life == life && this.loadingTimeWeight == loadingTimeWeight
      ensures this.discardLessValuable == discardLessValuable
    {
      this.capacity, this.life, this.loadingTimeWeight := capacity, life, loadingTimeWeight;
      this.discardLessValuable := discardLessValuable;
      cache, keys, lives, patterns, loadingCount := map[], [], map[], {}, map[];
      size, requests, hits, misses, lowestLifeKey := 0, 0, 0, 0, -1;
      loads, known := multiset{}, map[];
    }

    method UpdateLife(id: int, change: int, bounded: bool) returns (current: int)
      requires id in lives
      modifies this`lives
      ensures lives == old(lives)[id := current]
      ensures var changed := old(lives[id]) + change;
              current == if bounded && (if change < 0 then changed < 0 else changed > life)
                  then old(lives[id]) else changed
    {
      current := lives[id];
      var lowerBound := change < 0 && current + change >= 0;
      var upperBound := change >= 0 && current + change <= life;
      if !bounded || lowerBound || upperBound {
        current := current + change;
        lives := lives[id := current];
      }
    }

    method Tic(ignore: int)
      requires cache.Keys == lives.Keys && KeysOf(cache.Keys, keys)
      modifies this`lives, this`lowestLifeKey
      ensures lives == Ticked(old(lives), ignore)
      ensures if old(lives) == map[] then lowestLifeKey == old(lowestLifeKey) else Weakest(lives, lowestLifeKey)
    {
      var least: Option<int> := None;
      ghost var was := lives;
      var i := 0;
      hide KeysOf, TicAt, Ticked, Weakest;
      TicStart(was, ignore, keys, lowestLifeKey);
      while i < |keys|
        invariant 0 <= i <= |keys| && TicAt(was, ignore, keys, i, lives, lowestLifeKey, least)
        invariant i == 0 ==> lowestLifeKey == old(lowestLifeKey)
      {
        label Round:
        var k := keys[i];
        var current;
        TicReads(was, ignore, keys, i, lives, lowestLifeKey, least);
        if k == ignore {
          current := lives[k];
        } else {
          current := UpdateLife(k, -1, true);
        }
        TicNext(was, ignore, keys, i, old@Round(lives), lowestLifeKey, least, lives, current);
        if least.None? || current < least.value {
          lowestLifeKey := k;
          least := Some(current);
        }
        i := i + 1;
      }
      TicEnd(was, ignore, keys, lives, lowestLifeKey, least);
    }

    /** freeCacheSlot: the noted matcher goes, with its patterns. */
    method FreeCacheSlot()
      modifies this`cache, this`keys, this`lives, this`patterns, this`size
      ensures Now() == Evict(old(Now()), lowestLifeKey)
      ensures patterns == old(patterns) - {lowestLifeKey} && size == old(size) - 1
    {
      cache, keys := cache - {lowestLifeKey}, WithoutKey(keys, lowestLifeKey);
      lives := lives - {lowestLifeKey};
      patterns := patterns - {lowestLifeKey};
      size := size - 1;
    }

    /** storeMatcher */
    method StoreMatcher(id: int, matcher: Matcher)
      modifies this`cache, this`keys, this`lives, this`patterns, this`size
      ensures Now() == Put(Room(old(Now()), old(size) == capacity, lowestLifeKey), id, matcher, life)
      ensures size == old(size) - (if old(size) == capacity then 1 else 0) + 1
    {
      if size == capacity {
        FreeCacheSlot();
      }
      cache, keys := cache[id := matcher], WithKey(keys, id);
      lives := lives[id := life];
      size := size + 1;
    }

    /** loadMatcherFromDB: the attempt is counted whether or not it succeeds. */
    method LoadFromDatabase(id: int, read: Option<Matcher>)
      requires hits + misses == requests && |loads| + 1 == misses && CountsAre(loadingCount, loads)
      modifies this`loadingCount, this`loads, this`known
      ensures Counted()
      ensures loads == old(loads) + multiset{id}
      ensures known == if read.Some? then old(known)[id := read.value] else old(known)
    {
      var count: nat := 0;
      if id in loadingCount {
        count := loadingCount[id];
      }
      count := count + 1;
      loadingCount := loadingCount[id := count];
      loads := loads + multiset{id};
      if read.Some? {
        known := known[id := read.value];
      }
    }

    /** Whether loadMatcher leaves a matcher of this worth out of the cache. */
    predicate Discards(worth: nat)
      reads this
    {
      discardLessValuable && size == capacity && worth < (if lowestLifeKey in lives then lives[lowestLifeKey] else -1)
    }

    /** Only a full cache leaves a matcher out, and only one that is worth no more than any
        cached one has left to live. If it is taken in after all, the one that makes room has
        no more left than the new one is worth, and at most one more than any other. */
    lemma DiscardsWhat(worth: nat)
      requires Valid()
      ensures Discards(worth) ==>
                discardLessValuable && size == capacity && forall k :: k in lives ==> worth <= lives[k]
      ensures !Discards(worth) && size == capacity && cache != map[] ==>
                && lowestLifeKey in cache && (discardLessValuable ==> lives[lowestLifeKey] <= worth)
                && forall k :: k in lives ==> lives[lowestLifeKey] <= lives[k] + 1
    {
      hide Counted, Current, Sized, KeysOf, Alive;
      forall k | k in lives ensures |cache| > 0 { NotEmpty(cache, k); }
      if cache != map[] { assert |cache| > 0; }
    }

    /** loadMatcher. `read` is what the database has now; `seconds` is how long reading
        takes, in whole seconds; `failed` is the error flag the caller passes. */
    method LoadMatcher(id: int, read: Option<Matcher>, seconds: nat, failed: bool)
      returns (matcher: Option<Matcher>, error: bool)
      requires Valid()
      modifies this
      ensures Valid() && requests == old(requests) + 1
      ensures id in old(cache) ==>
                && matcher == Some(old(known)[id]) && error == failed && known == old(known)
                && hits == old(hits) + 1 && misses == old(misses) && loads == old(loads)
                && size == old(size) && cache == old(cache) && keys == old(keys)
                && lives == Ticked(old(lives), id)[id := old(lives)[id] + 1]
      ensures id !in old(cache) ==>
                && misses == old(misses) + 1 && hits == old(hits) && loads == old(loads) + multiset{id}
                && error == (failed || read.None?)
                && known == (if read.Some? then old(known)[id := read.value] else old(known))
                && matcher == (if error then None else read)
      ensures id !in old(cache) && error ==> Now() == old(Now()) && size == old(size)
      ensures id !in old(cache) && !error ==>
                var worth := seconds * loadingTimeWeight;
                Now() == if old(Discards(worth)) then Tick(old(Now()), id)
                         else Tick(Put(Room(old(Now()), old(size) == capacity, old(lowestLifeKey)),
                                   id, read.value, life + worth), id)
    {
      hide CountsAre, Current, Ticked, Tick, Put, Room, Fit;
      FitIs(Now(), capacity, size, lowestLifeKey);
      hide Consistent, Sized;
      requests := requests + 1;
      if id in lives {
        CurrentIs(cache, known, id);
        hits := hits + 1;
        matcher := Some(cache[id]);
        Touch(id);
        error := failed;
      } else {
        matcher, error := LoadMissing(id, read, seconds, failed);
      }
    }

    method LoadMissing(id: int, read: Option<Matcher>, seconds: nat, failed: bool)
      returns (matcher: Option<Matcher>, error: bool)
      requires hits + misses + 1 == requests && |loads| == misses && CountsAre(loadingCount, loads)
      requires Fit(Now(), capacity, size, lowestLifeKey) && Current(cache, known) && id !in cache
      modifies this
      ensures Valid() && hits == old(hits) && misses == old(misses) + 1 && loads == old(loads) + multiset{id}
      ensures requests == old(requests)
      ensures error == (failed || read.None?) && matcher == (if error then None else read)
      ensures known == (if read.Some? then old(known)[id := read.value] else old(known))
      ensures error ==> Now() == old(Now()) && size == old(size)
      ensures !error ==>
                var worth := seconds * loadingTimeWeight;
                Now() == if old(Discards(worth)) then Tick(old(Now()), id)
                         else Tick(Put(Room(old(Now()), old(size) == capacity, old(lowestLifeKey)),
                                   id, read.value, life + worth), id)
    {
      hide CountsAre, Current, Ticked, Tick, Put, Room, Fit;
      misses := misses + 1;
      var worth := seconds * loadingTimeWeight;
      if read.Some? { CurrentKept(Now(), known, id, read.value, life + worth, size == capacity, lowestLifeKey); }
      LoadFromDatabase(id, read);
      error := failed || read.None?;
      if error {
        return None, error;
      }
      matcher := read;
      Admit(id, read.value, worth);
    }

    /** A hit: the others age, and the matcher used gains one. */
    method Touch(id: int)
      requires Fit(Now(), capacity, size, lowestLifeKey) && id in cache && id in lives
      modifies this`lives, this`lowestLifeKey
      ensures Fit(Now(), capacity, size, lowestLifeKey)
      ensures lives == Ticked(old(lives), id)[id := old(lives)[id] + 1]
    {
      hide Alive, Weakest, AlmostWeakest, Ticked, KeysOf, Sized;
      TickedIs(lives, id);
      Tic(id);
      WeakestKept(lives, lowestLifeKey, id);
      var _ := UpdateLife(id, 1, false);
    }

    /** A matcher just read: stored, unless the cache is full of better ones. */
    method Admit(id: int, matcher: Matcher, worth: nat)
      requires Fit(Now(), capacity, size, lowestLifeKey) && id !in cache
      modifies this`cache, this`keys, this`lives, this`patterns, this`size, this`lowestLifeKey
      ensures Fit(Now(), capacity, size, lowestLifeKey)
      ensures Now() == if old(Discards(worth)) then Tick(old(Now()), id)
                       else Tick(Put(Room(old(Now()), old(size) == capacity, old(lowestLifeKey)),
                                 id, matcher, life + worth), id)
    {
      hide Alive, Weakest, AlmostWeakest, Ticked, Put, Room, KeysOf, Fit, Sized;
      FitIs(Now(), capacity, size, lowestLifeKey);
      var lowest := if lowestLifeKey in lives then lives[lowestLifeKey] else -1;
      var discard := size == capacity && worth < lowest;
      if !discardLessValuable || !discard {
        ghost var room := Room(Now(), size == capacity, lowestLifeKey);
        Stored(Now(), capacity, size, lowestLifeKey, id, matcher, life, worth);
        StoreMatcher(id, matcher);
        var _ := UpdateLife(id, worth, false);
        assert Now() == Put(room, id, matcher, life + worth);
      }
      ghost var s := Now();
      Tic(id);
      assert Now() == Tick(s, id);
      TickFits(s, capacity, size, id, lowestLifeKey);
    }

    /** unloadMatcher */
    method UnloadMatcher(id: int, keepPatterns: bool)
      requires Valid()
      modifies this`cache, this`keys, this`lives, this`patterns, this`size
      ensures Valid() && Now() == if id in old(cache) then Evict(old(Now()), id) else old(Now())
      ensures id !in cache && forall k :: k in cache <==> k in old(cache) && k != id
      ensures patterns == if id in old(cache) && !keepPatterns then old(patterns) - {id} else old(patterns)
      ensures size == old(size) - (if id in old(cache) then 1 else 0)
    {
      hide CountsAre, Current, Fit;
      if id in cache {
        Unloaded(Now(), capacity, size, lowestLifeKey, id, known);
        cache, keys := cache - {id}, WithoutKey(keys, id);
        lives := lives - {id};
        if !keepPatterns {
          patterns := patterns - {id};
        }
        size := size - 1;
      }
    }

    /** updateMatcher: afterwards, unless there was an error, the cache has what the
        database has now or nothing, never the old matcher. */
    method UpdateMatcher(id: int, read: Option<Matcher>, seconds: nat, failed: bool) returns (error: bool)
      requires Valid()
      modifies this
      ensures Valid() && error == (failed || read.None?)
      ensures id in cache ==> !error && read == Some(cache[id])
      ensures misses == old(misses) + 1 && loads == old(loads) + multiset{id}
    {
      UnloadMatcher(id, true);
      var matcher;
      matcher, error := LoadMatcher(id, read, seconds, failed);
      hide Fit, Counted;
      if id in cache && !error { CurrentIs(cache, known, id); }
    }
  }

  // ----- the maps as one value

  lemma NotEmpty(cache: map<int, Matcher>, k: int)
    requires k in cache
    ensures |cache| > 0
  {
    assert k in cache.Keys;
    assert |cache| == |cache.Keys|;
  }

  datatype Slots = Slots(cache: map<int, Matcher>, keys: seq<int>, lives: map<int, int>)

  function Evict(s: Slots, k: int): Slots { Slots(s.cache - {k}, WithoutKey(s.keys, k), s.lives - {k}) }

  function Put(s: Slots, id: int, m: Matcher, l: int): Slots {
    Slots(s.cache[id := m], WithKey(s.keys, id), s.lives[id := l])
  }

  function Room(s: Slots, full: bool, k: int): Slots { if full then Evict(s, k) else s }

  function Tick(s: Slots, ignore: int): Slots { s.(lives := Ticked(s.lives, ignore)) }

  ghost predicate Consistent(s: Slots) {
    s.cache.Keys == s.lives.Keys && KeysOf(s.cache.Keys, s.keys) && Alive(s.lives)
  }

  /** The size counts the cached matchers and stays within the capacity; with a
      capacity of 0 one matcher is cached all the same, and not counted. */
  predicate Sized(n: nat, capacity: nat, size: int) {
    || (size == n && n <= capacity)
    || (capacity == 0 && size == n - 1 && n <= 1)
  }

  ghost predicate Fit(s: Slots, capacity: nat, size: int, victim: int) {
    && Consistent(s) && Sized(|s.cache|, capacity, size)
    && (size == capacity && |s.cache| > 0 ==> AlmostWeakest(s.lives, victim))
  }

  lemma FitIs(s: Slots, capacity: nat, size: int, victim: int)
    requires Fit(s, capacity, size, victim)
    ensures Consistent(s) && Sized(|s.cache|, capacity, size) && s.cache.Keys == s.lives.Keys
    ensures size == capacity && |s.cache| > 0 ==> victim in s.cache
  {
    hide KeysOf, Alive;
    if size == capacity && |s.cache| > 0 { assert victim in s.lives; }
  }

  /** The size is the number of cached matchers, and at most the capacity, if the capacity
      is at least 1. With a capacity of 0 the size is 0 while one matcher is cached. */
  lemma SizeCounts(s: Slots, capacity: nat, size: int, victim: int)
    requires Fit(s, capacity, size, victim)
    ensures capacity > 0 ==> size == |s.cache| <= capacity
    ensures capacity == 0 && s.cache != map[] ==> size == 0 && |s.cache| == 1
    ensures s.cache != map[] ==> (size == |s.cache| <==> capacity > 0)
  {
    if |s.cache| == 0 { assert s.cache == map[]; }
  }

  /** One load with a capacity of 0. */
  method LoadIntoNothing(life: nat, weight: nat, discard: bool, id: int, matcher: Matcher, seconds: nat)
    returns (size: int, cached: bool)
    ensures size == 0 && cached
  {
    var c := new SFBMCache(0, life, weight, discard);
    var _, _ := c.LoadMatcher(id, Some(matcher), seconds, false);
    SizeCounts(c.Now(), 0, c.size, c.lowestLifeKey);
    size, cached := c.size, id in c.cache;
  }

  /** A matcher that was taken in is there the next time, whatever the database has then. */
  method LoadAgain(c: SFBMCache, id: int, matcher: Matcher, seconds: nat, later: Option<Matcher>)
    returns (again: Option<Matcher>)
    requires c.Valid() && id !in c.cache && !c.Discards(seconds * c.loadingTimeWeight)
    modifies c
    ensures c.Valid() && again == Some(matcher)
    ensures c.hits == old(c.hits) + 1 && c.misses == old(c.misses) + 1 && c.loads == old(c.loads) + multiset{id}
    ensures id in c.cache && c.cache[id] == matcher
  {
    var first, _ := c.LoadMatcher(id, Some(matcher), seconds, false);
    assert id in c.cache && c.known[id] == matcher;
    var error;
    again, error := c.LoadMatcher(id, later, seconds, false);
  }

  lemma EvictIs(s: Slots, k: int)
    requires Consistent(s)
    ensures Consistent(Evict(s, k)) && |Evict(s, k).cache| == |s.cache| - (if k in s.cache then 1 else 0)
    ensures k !in Evict(s, k).cache && forall j :: j in Evict(s, k).cache <==> j in s.cache && j != k
  {
    RemoveSize(s.cache, k);
    WithoutKeyIs(s.keys, k);
  }

  lemma PutIs(s: Slots, id: int, m: Matcher, l: nat)
    requires Consistent(s) && id !in s.cache
    ensures Consistent(Put(s, id, m, l)) && |Put(s, id, m, l).cache| == |s.cache| + 1
  {
    AddSize(s.cache, id, m);
    WithKeyIs(s.keys, id);
  }

  lemma PutTwice(s: Slots, id: int, m: Matcher, l: int, l': int)
    ensures id in Put(s, id, m, l).lives && Put(s, id, m, l).lives[id] == l
    ensures var p := Put(s, id, m, l); p.(lives := p.lives[id := l']) == Put(s, id, m, l')
  {
    assert s.lives[id := l][id := l'] == s.lives[id := l'];
  }

  /** Storing keeps everything but the note of the weakest, which tic renews. */
  lemma Stored(s: Slots, capacity: nat, size: int, victim: int, id: int, m: Matcher, l: nat, worth: nat)
    requires Fit(s, capacity, size, victim) && id !in s.cache
    ensures var full := size == capacity;
            var room := Room(s, full, victim);
            && Consistent(Put(room, id, m, l + worth))
            && Sized(|Put(room, id, m, l + worth).cache|, capacity, size - (if full then 1 else 0) + 1)
            && id in Put(room, id, m, l).lives && Put(room, id, m, l).lives[id] == l
            && Put(room, id, m, l).(lives := Put(room, id, m, l).lives[id := l + worth]) == Put(room, id, m, l + worth)
  {
    FitIs(s, capacity, size, victim);
    EvictIs(s, victim);
    var room := Room(s, size == capacity, victim);
    hide Evict, Put, Consistent, Fit;
    PutIs(room, id, m, l + worth);
    PutTwice(room, id, m, l, l + worth);
  }

  lemma TickFits(s: Slots, capacity: nat, size: int, id: int, victim: int)
    requires Consistent(s) && Sized(|s.cache|, capacity, size)
    requires s.lives != map[] ==> Weakest(Ticked(s.lives, id), victim)
    ensures Fit(Tick(s, id), capacity, size, victim)
  {
    hide Weakest, AlmostWeakest, Ticked, Alive, KeysOf;
    TickedIs(s.lives, id);
    if s.lives == map[] {
      assert s.cache.Keys == {};
    } else {
      WeakestKept(Ticked(s.lives, id), victim, id);
    }
  }

  lemma Unloaded(s: Slots, capacity: nat, size: int, victim: int, id: int, known: map<int, Matcher>)
    requires Fit(s, capacity, size, victim) && id in s.cache && Current(s.cache, known)
    ensures Fit(Evict(s, id), capacity, size - 1, victim) && Current(Evict(s, id).cache, known)
    ensures id !in Evict(s, id).cache && forall j :: j in Evict(s, id).cache <==> j in s.cache && j != id
  {
    EvictIs(s, id);
    hide Consistent;
  }

  /** Every cached matcher is what the database last returned for it. */
  ghost predicate Current(cache: map<int, Matcher>, known: map<int, Matcher>) {
    forall k :: k in cache ==> k in known && cache[k] == known[k]
  }

  lemma CurrentKept(s: Slots, known: map<int, Matcher>, id: int, m: Matcher, l: int, full: bool, out: int)
    requires Current(s.cache, known) && id !in s.cache
    ensures Current(s.cache, known[id := m]) && Current(Put(Room(s, full, out), id, m, l).cache, known[id := m])
    ensures Tick(Put(Room(s, full, out), id, m, l), id).cache == Put(Room(s, full, out), id, m, l).cache
    ensures Tick(s, id).cache == s.cache
  {
    hide WithKey, WithoutKey, Ticked;
  }

  lemma CurrentIs(cache: map<int, Matcher>, known: map<int, Matcher>, id: int)
    requires Current(cache, known) && id in cache
    ensures id in known && cache[id] == known[id]
  {
  }

  ghost predicate CountsAre(counts: map<int, nat>, loads: multiset<int>) {
    forall k :: (k in counts <==> k in loads) && (k in loads ==> counts[k] == loads[k])
  }

  /** tic after the keys in `seen`. */
  function TickedSome(lives: map<int, int>, ignore: int, seen: seq<int>): map<int, int> {
    map k | k in lives :: if k != ignore && k in seen then Aged(lives[k]) else lives[k]
  }

  ghost predicate WeakestOf(lives: map<int, int>, seen: seq<int>, v: int) {
    && v in seen && v in lives
    && forall k :: k in seen ==> k in lives && (lives[v] < lives[k] || (lives[v] == lives[k] && v <= k))
  }

  /** tic with `i` keys done: lives, the key noted, and the least life seen. */
  ghost predicate TicAt(was: map<int, int>, ignore: int, keys: seq<int>, i: nat, lives: map<int, int>, v: int,
                        least: Option<int>)
  {
    && i <= |keys| && lives == TickedSome(was, ignore, keys[..i])
    && (least.None? <==> i == 0)
    && (i > 0 ==> WeakestOf(lives, keys[..i], v) && least == Some(lives[v]))
  }

  lemma TicStart(was: map<int, int>, ignore: int, keys: seq<int>, v: int)
    ensures TicAt(was, ignore, keys, 0, was, v, None)
  {
    assert TickedSome(was, ignore, keys[..0]) == was;
  }

  lemma TicReads(was: map<int, int>, ignore: int, keys: seq<int>, i: nat, lives: map<int, int>, v: int,
                 least: Option<int>)
    requires KeysOf(was.Keys, keys) && i < |keys| && TicAt(was, ignore, keys, i, lives, v, least)
    ensures keys[i] in was && keys[i] in lives && lives[keys[i]] == was[keys[i]]
  {
    assert keys[i] in keys;
    forall j | 0 <= j < i ensures keys[j] != keys[i] {}
  }

  lemma Taken(keys: seq<int>, i: nat)
    requires i < |keys| && Increasing(keys)
    ensures forall j :: j in keys[..i + 1] <==> j in keys[..i] || j == keys[i]
    ensures forall j :: j in keys[..i] ==> j < keys[i]
  {
    assert keys[..i + 1] == keys[..i] + [keys[i]];
  }

  lemma TickedNext(was: map<int, int>, ignore: int, seen: seq<int>, more: seq<int>, k: int)
    requires k in was && k !in seen && forall j :: j in more <==> j in seen || j == k
    ensures TickedSome(was, ignore, more) ==
            TickedSome(was, ignore, seen)[k := if k == ignore then was[k] else Aged(was[k])]
  {
    hide Aged;
  }

  lemma TicNext(was: map<int, int>, ignore: int, keys: seq<int>, i: nat, lives: map<int, int>, v: int,
                  least: Option<int>,
                next: map<int, int>, current: int)
    requires KeysOf(was.Keys, keys) && i < |keys| && TicAt(was, ignore, keys, i, lives, v, least)
    requires keys[i] in was && next == lives[keys[i] := current]
    requires current == if keys[i] == ignore then was[keys[i]] else Aged(was[keys[i]])
    ensures var lower := least.None? || current < least.value;
            TicAt(was, ignore, keys, i + 1, next, if lower then keys[i] else v, if lower then Some(current) else least)
  {
    TicReads(was, ignore, keys, i, lives, v, least);
    Taken(keys, i);
    TickedNext(was, ignore, keys[..i], keys[..i + 1], keys[i]);
    hide Aged, TickedSome, KeysOf, WeakestOf;
    if i > 0 { WeakestNext(lives, keys[..i], keys[..i + 1], keys[i], v, current); } else { WeakestFirst(next, keys); }
  }

  lemma WeakestFirst(lives: map<int, int>, keys: seq<int>)
    requires keys != [] && keys[0] in lives
    ensures WeakestOf(lives, keys[..1], keys[0])
  {
  }

  lemma WeakestNext(lives: map<int, int>, seen: seq<int>, more: seq<int>, k: int, v: int, current: int)
    requires WeakestOf(lives, seen, v) && (forall j :: j in seen ==> j < k)
          && forall j :: j in more <==> j in seen || j == k
    ensures var next := lives[k := current];
            && (current < lives[v] ==> WeakestOf(next, more, k))
            && (current >= lives[v] ==> WeakestOf(next, more, v) && next[v] == lives[v])
  {
  }

  lemma TicEnd(was: map<int, int>, ignore: int, keys: seq<int>, lives: map<int, int>, v: int, least: Option<int>)
    requires KeysOf(was.Keys, keys) && TicAt(was, ignore, keys, |keys|, lives, v, least)
    ensures lives == Ticked(was, ignore)
    ensures keys == [] <==> was == map[]
    ensures keys != [] ==> Weakest(lives, v)
  {
    assert keys[..|keys|] == keys;
    if keys == [] { assert forall k :: k !in was; } else { assert keys[0] in was; }
  }
}

/** The in-memory cache: a map beside two counters, with eviction to 90% of capacity.
    Clock readings are arguments: `now` is the monotonic clock, `wall` the system clock. */
module MemoryCache {
  import opened Common
  import opened Accounting

  datatype EvictionPolicy = Lru | Lfu | Fifo | Random | Ttl

  datatype Config = Config(
    maxEntries: nat, maxMemoryBytes: Option<nat>, defaultTtl: Option<nat>, policy: EvictionPolicy) {

    /** What the constructor checks. */
    predicate Validates() {
      maxEntries > 0 && (maxMemoryBytes.Some? ==> maxMemoryBytes.value > 0)
    }
  }

  datatype Entry = Entry(
    value: Bytes, createdAt: nat, expiresAt: Option<nat>, sizeBytes: nat, lastAccessed: nat, accessCount: nat) {

    predicate IsExpired(now: nat) {
      expiresAt.Some? && now >= expiresAt.value
    }

    function Touch(wall: nat): Entry {
      this.(lastAccessed := wall, accessCount := accessCount + 1)
    }
  }

  function NewEntry(value: Bytes, ttl: nat, now: nat, wall: nat): Entry {
    Entry(value, now, Some(now + ttl), |value|, wall, 1)
  }

  type Store<K> = map<K, Entry>

  ghost function Sizes<K>(s: Store<K>): map<K, nat> {
    map k | k in s :: s[k].sizeBytes
  }

  ghost function Usage<K>(s: Store<K>): nat {
    Total(Sizes(s))
  }

  // ----- What an operation may do to the store -----

  function TargetEntries(c: Config): nat {
    c.maxEntries * 90 / 100
  }

  ghost predicate NeedsEviction<K>(c: Config, s: Store<K>) {
    |s| >= c.maxEntries || (c.maxMemoryBytes.Some? && Usage(s) >= c.maxMemoryBytes.value)
  }

  /** The order in which a policy gives entries up; `Random` may take any, which is what
      equal ranks say. */
  function Rank<K>(p: EvictionPolicy, s: Store<K>): map<K, int> {
    match p
    case Lru => map k | k in s :: s[k].lastAccessed
    case Lfu => map k | k in s :: s[k].accessCount
    case Fifo => map k | k in s :: s[k].createdAt
    case _ => map k | k in s :: 0
  }

  function Unexpired<K>(s: Store<K>, now: nat): Store<K> {
    map k | k in s && !s[k].IsExpired(now) :: s[k]
  }

  /** One eviction: down to 90% of `maxEntries`, worst rank first; nothing at all when the
      entry count is already there, however much memory is in use. */
  ghost predicate Evicts<K>(c: Config, s: Store<K>, t: Store<K>, now: nat) {
    if !NeedsEviction(c, s) || |s| <= TargetEntries(c) then t == s
    else if c.policy == Ttl then t == Unexpired(s, now)
    else RemovedByRank(s, t, Rank(c.policy, s), |s| - TargetEntries(c))
  }

  datatype Op<K> =
    | Get(key: K, now: nat, wall: nat, result: Option<Bytes>)
    | Put(key: K, value: Bytes, ttl: nat, now: nat, wall: nat)
    | Contains(key: K, now: nat, found: bool)
    | Remove(key: K, removed: bool)
    | Clear

  ghost predicate Step<K(!new)>(c: Config, s: Store<K>, op: Op<K>, t: Store<K>) {
    match op
    case Get(k, now, wall, result) =>
      if k !in s then t == s && result == None
      else if s[k].IsExpired(now) then t == s - {k} && result == None
      else t == s[k := s[k].Touch(wall)] && result == Some(s[k].value)
    case Put(k, v, ttl, now, wall) =>
      exists mid :: Evicts(c, s, mid, now) && t == mid[k := NewEntry(v, ttl, now, wall)]
    case Contains(k, now, found) =>
      && found == (k in s && !s[k].IsExpired(now))
      && t == (if k in s && s[k].IsExpired(now) then s - {k} else s)
    case Remove(k, removed) => removed == (k in s) && t == s - {k}
    case Clear => t == map[]
  }

  /** A put always comes to an end, whatever it has to evict. */
  lemma PutHappens<K(!new)>(c: Config, s: Store<K>, k: K, v: Bytes, ttl: nat, now: nat, wall: nat) returns (t: Store<K>)
    ensures Step(c, s, Put(k, v, ttl, now, wall), t)
  {
    var mid := s;
    if NeedsEviction(c, s) && |s| > TargetEntries(c) {
      if c.policy == Ttl {
        mid := Unexpired(s, now);
      } else {
        mid := SomeRemoval(s, Rank(c.policy, s), |s| - TargetEntries(c));
      }
    }
    assert Evicts(c, s, mid, now);
    t := mid[k := NewEntry(v, ttl, now, wall)];
  }

  lemma RemoveUsage<K>(s: Store<K>, k: K)
    requires k in s
    ensures Usage(s) == s[k].sizeBytes + Usage(s - {k}) && |s - {k}| == |s| - 1
  {
    RemoveShrinks(s, k);
    TotalSplit(Sizes(s), k);
    assert Sizes(s) - {k} == Sizes(s - {k});
  }

  lemma InsertUsage<K>(s: Store<K>, k: K, e: Entry)
    ensures Usage(s[k := e]) == Usage(s) - (if k in s then s[k].sizeBytes else 0) + e.sizeBytes
    ensures k in s ==> s[k].sizeBytes <= Usage(s)
    ensures |s[k := e]| == |s| + (if k in s then 0 else 1)
  {
    assert Sizes(s[k := e]) == Sizes(s)[k := e.sizeBytes];
    ChargeInsert(s, Sizes(s), k, e, e.sizeBytes);
  }

  // ----- The cache object -----

  class MemoryCache<K(==, !new)> {
    const config: Config
    var storage: Store<K>
    var entryCount: nat
    var memoryUsage: nat

    /** The counters say what the map holds. They are natural numbers here and unsigned in
        the source, so keeping this also says that no subtraction underflows. */
    ghost predicate Valid()
      reads this
    {
      config.Validates() && entryCount == |storage| && memoryUsage == Usage(storage)
    }

    constructor (config: Config)
      requires config.Validates()
      ensures Valid() && storage == map[] && this.config == config
    {
      this.config := config;
      storage, entryCount, memoryUsage := map[], 0, 0;
    }

    /** Drop one key and pay both counters back. */
    method Drop(key: K) returns (removed: bool)
      requires Valid()
      modifies this
      ensures Valid() && removed == (key in old(storage)) && storage == old(storage) - {key}
    {
      removed := key in storage;
      if removed {
        RemoveUsage(storage, key);
        var size := storage[key].sizeBytes;
        storage := storage - {key};
        entryCount := entryCount - 1;
        memoryUsage := memoryUsage - size;
      } else {
        assert storage - {key} == storage;
      }
    }

    method DropAll(keys: seq<K>)
      requires Valid()
      modifies this
      ensures Valid() && storage == old(storage) - Elements(keys)
    {
      for i := 0 to |keys|
        invariant Valid() && storage == old(storage) - Elements(keys[..i])
      {
        var _ := Drop(keys[i]);
        DropOneMore(old(storage), keys, i);
      }
      assert keys[..|keys|] == keys;
    }

    predicate NeedsEvictionNow()
      requires Valid()
      reads this
      ensures NeedsEvictionNow() == NeedsEviction(config, storage)
    {
      || entryCount >= config.maxEntries
      || (config.maxMemoryBytes.Some? && memoryUsage >= config.maxMemoryBytes.value)
    }

    /** `evict_lru`, `evict_lfu`, `evict_fifo` and `evict_random`: collect, sort, drop a prefix. */
    method EvictRanked(count: nat)
      requires Valid() && count <= |storage|
      modifies this
      ensures Valid() && RemovedByRank(old(storage), storage, Rank(config.policy, old(storage)), count)
      ensures TakesFirst(config.policy, old(storage), storage)
    {
      var rank := Rank(config.policy, storage);
      var candidates := Enumerate(storage.Keys);
      SortKeepsEnumeration(candidates, storage.Keys, rank);
      SortByRankSorts(candidates, rank);
      candidates := SortByRank(candidates, rank);
      DropAll(candidates[..count]);
      PrefixRemovesByRank(candidates, old(storage), storage, rank, count);
      RankTakesFirst(config.policy, old(storage), storage, count);
    }

    method EvictExpired(now: nat)
      requires Valid()
      modifies this
      ensures Valid() && storage == Unexpired(old(storage), now)
      ensures forall k :: k in storage <==>
                            k in old(storage) && (old(storage)[k].expiresAt.None? || now < old(storage)[k].expiresAt.value)
    {
      var expired := set k | k in storage && storage[k].IsExpired(now);
      var keys := Enumerate(expired);
      DropAll(keys);
      assert Elements(keys) == expired;
      assert storage == Unexpired(old(storage), now);
    }

    method PerformEviction(now: nat)
      requires Valid()
      modifies this
      ensures Valid() && Evicts(config, old(storage), storage, now)
    {
      if !NeedsEvictionNow() {
        return;
      }
      var targetEntries := config.maxEntries * 90 / 100;
      if entryCount <= targetEntries {
        return;
      }
      var evictCount := entryCount - targetEntries;
      match config.policy
      case Ttl => EvictExpired(now);
      case _ => EvictRanked(evictCount);
    }

    method GetOp(key: K, now: nat, wall: nat) returns (r: Option<Bytes>)
      requires Valid()
      modifies this
      ensures Valid() && Step(config, old(storage), Get(key, now, wall, r), storage)
    {
      if key !in storage {
        return None;
      }
      var entry := storage[key];
      if entry.IsExpired(now) {
        var _ := Drop(key);
        return None;
      }
      TotalUpdate(Sizes(storage), key, entry.sizeBytes);
      assert Sizes(storage[key := entry.Touch(wall)]) == Sizes(storage)[key := entry.sizeBytes];
      storage := storage[key := entry.Touch(wall)];
      assert storage.Keys == old(storage).Keys;
      r := Some(entry.value);
    }

    method PutWithTtl(key: K, value: Bytes, ttl: nat, now: nat, wall: nat)
      requires Valid()
      modifies this
      ensures Valid() && Step(config, old(storage), Put(key, value, ttl, now, wall), storage)
    {
      if NeedsEvictionNow() {
        PerformEviction(now);
      }
      ghost var mid := storage;
      assert Evicts(config, old(storage), mid, now);
      var entry := NewEntry(value, ttl, now, wall);
      InsertUsage(storage, key, entry);
      if key in storage {
        var oldSize := storage[key].sizeBytes;
        if |value| > oldSize {
          memoryUsage := memoryUsage + (|value| - oldSize);
        } else {
          memoryUsage := memoryUsage - (oldSize - |value|);
        }
      } else {
        entryCount := entryCount + 1;
        memoryUsage := memoryUsage + |value|;
      }
      storage := storage[key := entry];
    }

    /** Without a time to live of its own an entry gets the configured one, or an hour. */
    method PutOp(key: K, value: Bytes, now: nat, wall: nat)
      requires Valid()
      modifies this
      ensures Valid()
      ensures var ttl := if config.defaultTtl.Some? then config.defaultTtl.value else 3600 * 1_000_000_000;
              Step(config, old(storage), Put(key, value, ttl, now, wall), storage)
    {
      PutWithTtl(key, value, if config.defaultTtl.Some? then config.defaultTtl.value else 3600 * 1_000_000_000, now, wall);
    }

    method ContainsOp(key: K, now: nat) returns (found: bool)
      requires Valid()
      modifies this
      ensures Valid() && Step(config, old(storage), Contains(key, now, found), storage)
    {
      if key in storage && storage[key].IsExpired(now) {
        var _ := Drop(key);
        return false;
      }
      found := key in storage;
    }

    method RemoveOp(key: K) returns (removed: bool)
      requires Valid()
      modifies this
      ensures Valid() && Step(config, old(storage), Remove(key, removed), storage)
    {
      removed := Drop(key);
    }

    method ClearOp()
      requires Valid()
      modifies this
      ensures Valid() && Step(config, old(storage), Op<K>.Clear, storage)
    {
      storage, entryCount, memoryUsage := map[], 0, 0;
    }

    method SizeOp() returns (n: nat)
      requires Valid()
      ensures n == |storage|
    {
      n := entryCount;
    }
  }

  // ----- Every run -----

  ghost predicate Run<K(!new)>(c: Config, states: seq<Store<K>>, ops: seq<Op<K>>) {
    && |states| == |ops| + 1
    && states[0] == map[]
    && forall i :: 0 <= i < |ops| ==> Step(c, states[i], ops[i], states[i + 1])
  }

  lemma StepKeepsCapacity<K(!new)>(c: Config, s: Store<K>, op: Op<K>, t: Store<K>)
    requires c.Validates() && c.policy != Ttl
    requires |s| <= c.maxEntries && Step(c, s, op, t)
    ensures |t| <= c.maxEntries
  {
    match op
    case Put(k, v, ttl, now, wall) =>
      var mid :| Evicts(c, s, mid, now) && t == mid[k := NewEntry(v, ttl, now, wall)];
      InsertUsage(mid, k, NewEntry(v, ttl, now, wall));
    case Get(k, now, wall, _) =>
      if k in s {
        RemoveShrinks(s, k);
        InsertUsage(s, k, s[k].Touch(wall));
      }
    case Contains(k, _, _) =>
      if k in s {
        RemoveShrinks(s, k);
      }
    case Remove(k, _) =>
      if k in s {
        RemoveShrinks(s, k);
      } else {
        assert s - {k} == s;
      }
    case Clear =>
  }

  /** Under every policy but `Ttl`, no run ever holds more than `maxEntries`. */
  lemma {:induction false} RunKeepsCapacity<K(!new)>(c: Config, states: seq<Store<K>>, ops: seq<Op<K>>, n: nat)
    requires c.Validates() && c.policy != Ttl
    requires Run(c, states, ops) && n <= |ops|
    ensures |states[n]| <= c.maxEntries
  {
    if n > 0 {
      RunKeepsCapacity(c, states, ops, n - 1);
      assert Step(c, states[n - 1], ops[n - 1], states[n - 1 + 1]);
      StepKeepsCapacity(c, states[n - 1], ops[n - 1], states[n]);
    }
  }

  /** What a policy may give up before what, in terms of the entries. */
  predicate GoesBefore(p: EvictionPolicy, v: Entry, u: Entry) {
    match p
    case Lru => v.lastAccessed <= u.lastAccessed
    case Lfu => v.accessCount <= u.accessCount
    case Fifo => v.createdAt <= u.createdAt
    case _ => true
  }

  /** An eviction by rank, in terms of the entries: it starts at either limit, ends at 90% of
      `maxEntries`, and takes the least recently used, least often used or oldest first. */
  lemma EvictionMeans<K(!new)>(c: Config, s: Store<K>, t: Store<K>, now: nat)
    requires Evicts(c, s, t, now) && c.policy != Ttl
    ensures SubMap(t, s)
    ensures |t| == if (|s| >= c.maxEntries || (c.maxMemoryBytes.Some? && Usage(s) >= c.maxMemoryBytes.value))
                      && |s| > c.maxEntries * 90 / 100
                   then c.maxEntries * 90 / 100 else |s|
    ensures TakesFirst(c.policy, s, t)
  {
    if t != s {
      RankTakesFirst(c.policy, s, t, |s| - TargetEntries(c));
    }
  }

  ghost predicate TakesFirst<K(!new)>(p: EvictionPolicy, s: Store<K>, t: Store<K>) {
    forall v, u :: v in s && v !in t && u in s && u in t ==> GoesBefore(p, s[v], s[u])
  }

  lemma RankTakesFirst<K(!new)>(p: EvictionPolicy, s: Store<K>, t: Store<K>, count: nat)
    requires RemovedByRank(s, t, Rank(p, s), count)
    ensures TakesFirst(p, s, t)
  {
    var rank := Rank(p, s);
    forall v, u | v in s && v !in t && u in s && u in t ensures GoesBefore(p, s[v], s[u]) {
      assert rank[v] <= rank[u];
    }
  }

  /** Under `Ttl` it keeps exactly the entries whose time has not come. */
  lemma TtlEvictionMeans<K(!new)>(c: Config, s: Store<K>, t: Store<K>, now: nat, k: K)
    requires Evicts(c, s, t, now) && c.policy == Ttl && t != s && k in s
    ensures k in t <==> s[k].expiresAt.None? || now < s[k].expiresAt.value
    ensures k in t ==> t[k] == s[k]
  {
  }

  /** A value put is returned until its lifetime is over, and not from then on. */
  lemma PutThenGet<K(!new)>(c: Config, s: Store<K>, put: Op<K>, t: Store<K>, get: Op<K>, u: Store<K>)
    requires put.Put? && Step(c, s, put, t) && get.Get? && get.key == put.key && Step(c, t, get, u)
    ensures get.result == if get.now < put.now + put.ttl then Some(put.value) else None
  {
  }

  // ----- What the stamps of an entry say about the run -----

  /** The system time of the last put or hit of `k`. */
  ghost function LastUse<K>(ops: seq<Op<K>>, k: K): nat {
    if ops == [] then 0
    else
      var before := LastUse(ops[..|ops| - 1], k);
      match ops[|ops| - 1]
      case Put(j, _, _, _, wall) => if j == k then wall else before
      case Get(j, _, wall, r) => if j == k && r.Some? then wall else before
      case _ => before
  }

  /** One for the last put of `k` and one for each hit since. */
  ghost function Uses<K>(ops: seq<Op<K>>, k: K): nat {
    if ops == [] then 0
    else
      var before := Uses(ops[..|ops| - 1], k);
      match ops[|ops| - 1]
      case Put(j, _, _, _, _) => if j == k then 1 else before
      case Get(j, _, _, r) => if j == k && r.Some? then before + 1 else before
      case _ => before
  }

  /** The time of the last put of `k`. */
  ghost function PutTime<K>(ops: seq<Op<K>>, k: K): nat {
    if ops == [] then 0
    else
      match ops[|ops| - 1]
      case Put(j, _, _, now, _) => if j == k then now else PutTime(ops[..|ops| - 1], k)
      case _ => PutTime(ops[..|ops| - 1], k)
  }

  ghost predicate Stamped<K>(e: Entry, ops: seq<Op<K>>, k: K) {
    && e.lastAccessed == LastUse(ops, k) && e.accessCount == Uses(ops, k) && e.createdAt == PutTime(ops, k)
    && e.sizeBytes == |e.value|
  }

  lemma StepStamps<K(!new)>(c: Config, s: Store<K>, op: Op<K>, t: Store<K>, ops: seq<Op<K>>, k: K)
    requires Step(c, s, op, t) && k in t && ops != [] && ops[|ops| - 1] == op
    requires k in s ==> Stamped(s[k], ops[..|ops| - 1], k)
    ensures Stamped(t[k], ops, k)
  {
    if op.Put? {
      var mid :| Evicts(c, s, mid, op.now) && t == mid[op.key := NewEntry(op.value, op.ttl, op.now, op.wall)];
      assert SubMap(mid, s);
    }
  }

  /** In every run the stamps of an entry are those of the operations on its key. */
  lemma {:induction false} RunStamps<K(!new)>(c: Config, states: seq<Store<K>>, ops: seq<Op<K>>, n: nat, k: K)
    requires Run(c, states, ops) && n <= |ops| && k in states[n]
    ensures Stamped(states[n][k], ops[..n], k)
  {
    if n > 0 {
      assert Step(c, states[n - 1], ops[n - 1], states[n - 1 + 1]);
      assert ops[..n][..n - 1] == ops[..n - 1] && ops[..n][n - 1] == ops[n - 1];
      if k in states[n - 1] {
        RunStamps(c, states, ops, n - 1, k);
      }
      StepStamps(c, states[n - 1], ops[n - 1], states[n], ops[..n], k);
    }
  }

  /** So in every run, a put evicts by the operations that went before: of an entry that goes
      and one that stays, the first was put or hit last no later, was put and hit no more
      often, or was put no later, as the policy says. */
  lemma RunEvictsByUse<K(!new)>(c: Config, states: seq<Store<K>>, ops: seq<Op<K>>, n: nat, v: K, u: K)
    requires Run(c, states, ops) && n < |ops| && ops[n].Put? && c.policy != Ttl
    requires v in states[n] && v !in states[n + 1]
    requires u in states[n] && u in states[n + 1] && u != ops[n].key
    ensures c.policy == Lru ==> LastUse(ops[..n], v) <= LastUse(ops[..n], u)
    ensures c.policy == Lfu ==> Uses(ops[..n], v) <= Uses(ops[..n], u)
    ensures c.policy == Fifo ==> PutTime(ops[..n], v) <= PutTime(ops[..n], u)
  {
    var s, op := states[n], ops[n];
    assert Step(c, s, op, states[n + 1]);
    var mid :| Evicts(c, s, mid, op.now) && states[n + 1] == mid[op.key := NewEntry(op.value, op.ttl, op.now, op.wall)];
    EvictionMeans(c, s, mid, op.now);
    RunStamps(c, states, ops, n, v);
    RunStamps(c, states, ops, n, u);
    assert v !in mid && u in mid && GoesBefore(c.policy, s[v], s[u]);
  }

  /** Under `Ttl` a put ends above the bound exactly when the cache was full and the live
      entries together with the key are too many. */
  lemma TtlCapacity<K(!new)>(c: Config, s: Store<K>, op: Op<K>, t: Store<K>)
    requires c.Validates() && c.policy == Ttl && op.Put? && Step(c, s, op, t)
    ensures |t| > c.maxEntries <==>
              |s| >= c.maxEntries && |Unexpired(s, op.now).Keys + {op.key}| > c.maxEntries
  {
    var e := NewEntry(op.value, op.ttl, op.now, op.wall);
    var mid :| Evicts(c, s, mid, op.now) && t == mid[op.key := e];
    var live := Unexpired(s, op.now);
    assert t.Keys == mid.Keys + {op.key} && |t| == |t.Keys|;
    InsertSize(s, op.key, e);
    assert live.Keys + {op.key} <= s[op.key := e].Keys;
    SubsetSize(live.Keys + {op.key}, s[op.key := e].Keys);
  }

  /** For a cache within its bound: it is full, the key is new and nothing has expired. */
  lemma TtlFirstOverflow<K(!new)>(c: Config, s: Store<K>, op: Op<K>, t: Store<K>)
    requires c.Validates() && c.policy == Ttl && op.Put? && Step(c, s, op, t) && |s| <= c.maxEntries
    ensures |t| > c.maxEntries <==>
              |s| == c.maxEntries && op.key !in s && forall k :: k in s ==> !s[k].IsExpired(op.now)
  {
    TtlCapacity(c, s, op, t);
    var live := Unexpired(s, op.now);
    if k :| k in s && s[k].IsExpired(op.now) {
      assert live.Keys <= s.Keys - {k};
      SubsetSize(live.Keys, s.Keys - {k});
      SubsetSize(live.Keys + {op.key}, (s.Keys - {k}) + {op.key});
    } else {
      assert live == s;
      assert op.key in s ==> s.Keys + {op.key} == s.Keys;
    }
  }

  /** A run of two puts that leaves two entries where one is allowed. */
  lemma TtlExceedsCapacity() returns (c: Config, states: seq<Store<int>>, ops: seq<Op<int>>)
    ensures c == Config(1, None, None, Ttl) && c.Validates()
    ensures Run(c, states, ops) && |states[|ops|]| > c.maxEntries
  {
    c := Config(1, None, None, Ttl);
    var e := NewEntry([], 100, 0, 0);
    states := [map[], map[0 := e], map[0 := e, 1 := e]];
    ops := [Put(0, [], 100, 0, 0), Put(1, [], 100, 0, 0)];
    assert Evicts(c, states[0], states[0], 0) && map[][0 := e] == states[1];
    assert Unexpired(states[1], 0) == states[1];
    assert Evicts(c, states[1], states[1], 0) && states[1][1 := e] == states[2];
    InsertSize(states[1], 1, e);
    assert Step(c, states[0], ops[0], states[0 + 1]);
    assert Step(c, states[1], ops[1], states[1 + 1]);
  }

  /** Exactly when eviction takes anything: a limit is reached, the entry count is above 90%
      of `maxEntries`, and under `Ttl` something has expired. Bytes alone never suffice. */
  lemma EvictionActs<K(!new)>(c: Config, s: Store<K>, t: Store<K>, now: nat)
    requires Evicts(c, s, t, now)
    ensures t != s <==>
              && NeedsEviction(c, s) && |s| > TargetEntries(c)
              && (c.policy == Ttl ==> exists k :: k in s && s[k].IsExpired(now))
  {
    if c.policy == Ttl {
      assert (forall k :: k in s ==> !s[k].IsExpired(now)) ==> Unexpired(s, now) == s;
      assert forall k :: k in s && s[k].IsExpired(now) ==> k !in Unexpired(s, now);
    }
  }

  /** When the byte limit makes a difference: it is reached, the entry count is above 90% of
      `maxEntries` and below `maxEntries` itself, and under `Ttl` something has expired. */
  ghost predicate LimitMatters<K>(c: Config, s: Store<K>, now: nat) {
    && c.maxMemoryBytes.Some? && Usage(s) >= c.maxMemoryBytes.value
    && TargetEntries(c) < |s| < c.maxEntries
    && (c.policy == Ttl ==> exists k :: k in s && s[k].IsExpired(now))
  }

  /** Otherwise, and only otherwise, eviction may do exactly the same without the limit. */
  lemma MemoryLimitNotEnforced<K(!new)>(c: Config, s: Store<K>, now: nat)
    ensures (forall t :: Evicts(c, s, t, now) <==> Evicts(c.(maxMemoryBytes := None), s, t, now)) <==> !LimitMatters(c, s, now)
  {
    var free := c.(maxMemoryBytes := None);
    if LimitMatters(c, s, now) {
      assert Evicts(free, s, s, now);
      if Evicts(c, s, s, now) {
        EvictionActs(c, s, s, now);
      }
    } else if c.policy == Ttl && NeedsEviction(c, s) && !NeedsEviction(free, s) && |s| > TargetEntries(c) {
      assert Unexpired(s, now) == s;
    }
  }

  /** What eviction leaves, computed from the store before it when ranks are distinct. */
  ghost function Kept<K>(c: Config, s: Store<K>, now: nat): Store<K> {
    if !NeedsEviction(c, s) || |s| <= TargetEntries(c) then s
    else if c.policy == Ttl then Unexpired(s, now)
    else map k | k in s && |RankedBelow(s, Rank(c.policy, s), k)| >= |s| - TargetEntries(c) :: s[k]
  }

  ghost predicate DistinctRanks<K>(c: Config, s: Store<K>) {
    var rank := Rank(c.policy, s);
    forall j, k :: j in s && k in s && j != k ==> rank[j] != rank[k]
  }

  /** What it may leave at most, when ranks are equal. */
  ghost function MayKeep<K>(c: Config, s: Store<K>, now: nat): Store<K> {
    if !NeedsEviction(c, s) || |s| <= TargetEntries(c) then s
    else if c.policy == Ttl then Unexpired(s, now)
    else map k | k in s && |RankedNoHigher(s, Rank(c.policy, s), k)| >= |s| - TargetEntries(c) :: s[k]
  }

  /** Nothing is evicted, or not by rank, or no two ranks are equal. */
  ghost predicate NoTies<K>(c: Config, s: Store<K>) {
    !NeedsEviction(c, s) || |s| <= TargetEntries(c) || c.policy == Ttl || DistinctRanks(c, s)
  }

  /** Whatever ties there are, eviction leaves at least the one and at most the other. */
  lemma EvictionIsBetween<K(!new)>(c: Config, s: Store<K>, t: Store<K>, now: nat)
    requires Evicts(c, s, t, now)
    ensures SubMap(Kept(c, s, now), t) && SubMap(t, MayKeep(c, s, now))
  {
    if NeedsEviction(c, s) && |s| > TargetEntries(c) && c.policy != Ttl {
      var rank, count := Rank(c.policy, s), |s| - TargetEntries(c);
      forall k | k in s
        ensures |RankedBelow(s, rank, k)| >= count ==> k in t
        ensures k in t ==> |RankedNoHigher(s, rank, k)| >= count
      {
        RemovedIsBetween(s, t, rank, count, k);
      }
    }
  }

  lemma NoTiesNoChoice<K(!new)>(c: Config, s: Store<K>, now: nat)
    requires NoTies(c, s)
    ensures MayKeep(c, s, now) == Kept(c, s, now)
  {
    var rank := Rank(c.policy, s);
    forall k | k in s && DistinctRanks(c, s) ensures RankedNoHigher(s, rank, k) == RankedBelow(s, rank, k) {
    }
  }

  /** Without ties the store before an eviction fixes the store after it. */
  lemma EvictionIsExact<K(!new)>(c: Config, s: Store<K>, t: Store<K>, now: nat)
    requires Evicts(c, s, t, now) && NoTies(c, s)
    ensures t == Kept(c, s, now)
  {
    EvictionIsBetween(c, s, t, now);
    NoTiesNoChoice(c, s, now);
    SubMapsAreEqual(Kept(c, s, now), t);
  }

  /** When a put ends within a byte limit: eviction goes by count, so it is up to the sizes of
      the entries that the count leaves. It does if all that may stay fits, it does not if all
      that must stay does not fit, and without ties these are the same. */
  lemma PutMeetsMemoryLimit<K(!new)>(c: Config, s: Store<K>, op: Op<K>, t: Store<K>, limit: nat)
    requires op.Put? && Step(c, s, op, t)
    ensures NoTies(c, s) ==> (Usage(t) <= limit <==> Usage(Kept(c, s, op.now) - {op.key}) + |op.value| <= limit)
    ensures Usage(MayKeep(c, s, op.now) - {op.key}) + |op.value| <= limit ==> Usage(t) <= limit
    ensures Usage(Kept(c, s, op.now) - {op.key}) + |op.value| > limit ==> Usage(t) > limit
  {
    var e := NewEntry(op.value, op.ttl, op.now, op.wall);
    var mid :| Evicts(c, s, mid, op.now) && t == mid[op.key := e];
    EvictionIsBetween(c, s, mid, op.now);
    UsageOfPart(Kept(c, s, op.now), mid, op.key);
    UsageOfPart(mid, MayKeep(c, s, op.now), op.key);
    UsageWithEntry(mid, op.key, e);
    if NoTies(c, s) {
      NoTiesNoChoice(c, s, op.now);
    }
  }

  lemma UsageOfPart<K(!new)>(small: Store<K>, big: Store<K>, k: K)
    requires SubMap(small, big)
    ensures Usage(small - {k}) <= Usage(big - {k})
  {
    TotalOfSubMap(Sizes(small - {k}), Sizes(big - {k}));
  }

  lemma UsageWithEntry<K>(s: Store<K>, k: K, e: Entry)
    ensures Usage(s[k := e]) == Usage(s - {k}) + e.sizeBytes
  {
    assert s[k := e] == (s - {k})[k := e];
    InsertUsage(s - {k}, k, e);
  }

  /** A run that passes the byte limit: the second put finds it reached and evicts nothing. */
  lemma MemoryLimitExceeded(value: Bytes) returns (c: Config, states: seq<Store<int>>, ops: seq<Op<int>>)
    requires |value| == 5
    ensures c == Config(10, Some(5), None, Lru) && c.Validates()
    ensures Run(c, states, ops) && |ops| == 2 && NeedsEviction(c, states[1]) && Usage(states[2]) > 5
  {
    c := Config(10, Some(5), None, Lru);
    var e := NewEntry(value, 100, 0, 0);
    states := [map[], map[0 := e], map[0 := e][1 := e]];
    ops := [Put(0, value, 100, 0, 0), Put(1, value, 100, 0, 0)];
    assert Evicts(c, states[0], states[0], 0) && map[][0 := e] == states[1];
    assert Evicts(c, states[1], states[1], 0) && states[1][1 := e] == states[2];
    TotalOfOne(Sizes(states[1]), 0);
    InsertUsage(states[1], 1, e);
    assert Step(c, states[0], ops[0], states[0 + 1]);
    assert Step(c, states[1], ops[1], states[1 + 1]);
  }

  /** And one where eviction does act, down to one entry of seven bytes under a limit of six. */
  lemma EvictionLeavesTooMuch(value: Bytes, s: Store<int>, t: Store<int>) returns (c: Config)
    requires |value| == 7
    requires s == map[0 := NewEntry(value, 100, 0, 0), 1 := NewEntry(value, 100, 1, 1)]
    requires Evicts(Config(2, Some(6), None, Lru), s, t, 2)
    ensures c == Config(2, Some(6), None, Lru) && t != s && Usage(t) > 6
  {
    c := Config(2, Some(6), None, Lru);
    InsertSize(map[0 := s[0]], 1, s[1]);
    assert s == map[0 := s[0]][1 := s[1]];
    EvictionActs(c, s, t, 2);
    assert |t| == 1;
    var k :| k in t;
    RemoveShrinks(t, k);
    TotalSplit(Sizes(t), k);
    assert t[k].sizeBytes == 7;
  }

  /** The value of the last put of `k`, unless it was removed since. */
  ghost function Latest<K>(ops: seq<Op<K>>, k: K): Option<Bytes> {
    if ops == [] then None
    else
      match ops[|ops| - 1]
      case Put(j, v, _, _, _) => if j == k then Some(v) else Latest(ops[..|ops| - 1], k)
      case Remove(j, _) => if j == k then None else Latest(ops[..|ops| - 1], k)
      case Clear => None
      case _ => Latest(ops[..|ops| - 1], k)
  }

  /** In every run, a stored entry holds the value put last for its key. */
  lemma {:induction false} RunHoldsLatest<K(!new)>(c: Config, states: seq<Store<K>>, ops: seq<Op<K>>, n: nat, k: K)
    requires Run(c, states, ops) && n <= |ops|
    requires k in states[n]
    ensures Latest(ops[..n], k) == Some(states[n][k].value)
  {
    if n > 0 {
      var op := ops[n - 1];
      assert ops[..n][..n - 1] == ops[..n - 1] && ops[..n][n - 1] == op;
      assert Step(c, states[n - 1], op, states[n]);
      if op.Put? {
        var mid :| Evicts(c, states[n - 1], mid, op.now)
                   && states[n] == mid[op.key := NewEntry(op.value, op.ttl, op.now, op.wall)];
        if k != op.key {
          assert k in mid && k in states[n - 1] && mid[k] == states[n - 1][k];
        }
      }
      if !(op.Put? && op.key == k) {
        RunHoldsLatest(c, states, ops, n - 1, k);
      }
    }
  }

  /** A hit returns the value put last and not removed since; so the cache answers like a
      plain map that may forget. */
  lemma GetReturnsLatest<K(!new)>(c: Config, states: seq<Store<K>>, ops: seq<Op<K>>, n: nat)
    requires Run(c, states, ops) && n < |ops|
    requires ops[n].Get? && ops[n].result.Some?
    ensures ops[n].result == Latest(ops[..n], ops[n].key)
  {
    assert Step(c, states[n], ops[n], states[n + 1]);
    RunHoldsLatest(c, states, ops, n, ops[n].key);
  }
}

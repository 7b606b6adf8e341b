/** The browser caches: one eviction algorithm over LocalStorage (keys under a prefix) and
    over an IndexedDB object store (every key, so an empty prefix). Each pass over the store
    reads the clock again; its readings are arguments, in milliseconds. */
module BrowserCache {
  import opened Common
  import opened Accounting

  /** A stored text is an entry, or something this cache cannot read. */
  datatype Item =
    | Entry(value: Option<Bytes>, createdAt: nat, expiresAt: nat, sizeBytes: nat)  // None: the text does not decode
    | Unreadable
  {
    /** An expiry of zero means never. */
    predicate IsExpired(now: nat)
      requires Entry?
    {
      expiresAt != 0 && now >= expiresAt
    }
  }

  function NewEntry(value: Bytes, ttl: nat, now: nat): Item {
    Entry(Some(value), now, now + ttl, |value|)
  }

  type Storage = map<string, Item>

  predicate Ours(prefix: string, s: Storage, k: string) {
    k in s && prefix <= k && s[k].Entry?
  }

  function Sizes(prefix: string, s: Storage): map<string, nat> {
    map k | k in s && Ours(prefix, s, k) :: s[k].sizeBytes
  }

  function LiveSizes(prefix: string, s: Storage, now: nat): map<string, nat> {
    map k | k in s && Ours(prefix, s, k) && !s[k].IsExpired(now) :: s[k].sizeBytes
  }

  /** Bytes of entries that have not expired. */
  ghost function LiveBytes(prefix: string, s: Storage, now: nat): nat {
    Total(LiveSizes(prefix, s, now))
  }

  function Cleaned(prefix: string, s: Storage, now: nat): Storage {
    map k | k in s && !(Ours(prefix, s, k) && s[k].IsExpired(now)) :: s[k]
  }

  // ----- What eviction may do -----

  function Created(prefix: string, s: Storage): map<string, int> {
    map k | k in s && Ours(prefix, s, k) :: s[k].createdAt as int
  }

  /** The age-ordered stage: only entries of this cache go, oldest first, until `target`
      bytes are freed or none is left, and one removal fewer would free too little. */
  ghost predicate EvictsOldest(prefix: string, before: Storage, after: Storage, target: nat) {
    && SubMap(after, before)
    && FreesOldest(Sizes(prefix, before), Created(prefix, before), before.Keys - after.Keys, target)
  }

  /** Three passes: measure at `t0`, drop the expired at `t1` and measure at `t2`, evict. */
  ghost predicate Evicts(prefix: string, limit: nat, needed: nat, s: Storage, t: Storage, t0: nat, t1: nat, t2: nat) {
    var c := Cleaned(prefix, s, t1);
    if LiveBytes(prefix, s, t0) + needed <= limit then t == s
    else if LiveBytes(prefix, c, t2) + needed <= limit then t == c
    else EvictsOldest(prefix, c, t, LiveBytes(prefix, c, t2) + needed - limit)
  }

  lemma PrefixIsGone(before: Storage, entries: seq<string>, n: nat)
    requires n <= |entries| && forall k :: k in entries ==> k in before
    ensures before.Keys - (before - Elements(entries[..n])).Keys == Elements(entries[..n])
  {
    forall k | k in Elements(entries[..n]) ensures k in before {
      assert k in entries;
    }
  }

  // ----- The cache object -----

  datatype GetResult = Hit(value: Bytes) | Miss | SerializationError

  class BrowserCache {
    const prefix: string
    const maxSizeBytes: nat
    const defaultTtl: nat
    /** LocalStorage reports an item it cannot read; the object store passes it over. */
    const strict: bool
    var storage: Storage

    constructor (prefix: string, strict: bool, maxSizeBytes: nat, defaultTtl: nat, storage: Storage)
      ensures this.prefix == prefix && this.strict == strict && this.maxSizeBytes == maxSizeBytes
      ensures this.defaultTtl == defaultTtl && this.storage == storage
    {
      this.prefix, this.strict, this.storage := prefix, strict, storage;
      this.maxSizeBytes, this.defaultTtl := maxSizeBytes, defaultTtl;
    }

    method AllKeys() returns (keys: seq<string>)
      ensures Enumerates(keys, set k | k in storage && prefix <= k)
    {
      keys := Enumerate(set k | k in storage && prefix <= k);
    }

    method CalculateSize(now: nat) returns (total: nat)
      ensures total == LiveBytes(prefix, storage, now)
    {
      var keys := AllKeys();
      ghost var sizes := LiveSizes(prefix, storage, now);
      total := 0;
      for i := 0 to |keys|
        invariant total == SumOver(keys[..i], sizes)
      {
        assert keys[..i + 1][..i] == keys[..i];
        var key := keys[i];
        assert key in keys;
        if storage[key].Entry? && !storage[key].IsExpired(now) {
          total := total + storage[key].sizeBytes;
        }
      }
      assert keys[..|keys|] == keys;
      SumOverIsTotal(keys, sizes);
    }

    method CleanupExpired(now: nat) returns (removed: nat)
      modifies this
      ensures storage == Cleaned(prefix, old(storage), now)
      ensures removed == |old(storage)| - |storage|
    {
      var keys := AllKeys();
      ghost var start := storage;
      removed := 0;
      for i := 0 to |keys|
        invariant SubMap(storage, start)
        invariant forall k :: k in start && k !in storage ==> Ours(prefix, start, k) && start[k].IsExpired(now)
        invariant forall k :: k in start && k in keys[..i] && Ours(prefix, start, k) && start[k].IsExpired(now) ==>
                                k !in storage
        invariant forall k :: k in keys[i..] ==> k in storage
        invariant removed == |start| - |storage|
      {
        var key := keys[i];
        assert key in keys[i..] && key in keys;
        assert keys[i..] == [key] + keys[i + 1..] && keys[..i + 1] == keys[..i] + [key];
        if storage[key].Entry? && storage[key].IsExpired(now) {
          RemoveShrinks(storage, key);
          storage := storage - {key};
          removed := removed + 1;
        }
      }
      assert keys[..|keys|] == keys;
    }

    method RemoveUntilFreed(entries: seq<string>, sizes: map<string, nat>, target: nat) returns (n: nat)
      requires forall k :: k in entries ==> k in sizes
      modifies this
      ensures n <= |entries| && storage == old(storage) - Elements(entries[..n])
      ensures n == |entries| || SumOver(entries[..n], sizes) >= target
      ensures n > 0 ==> SumOver(entries[..n - 1], sizes) < target
    {
      var freed := 0;
      n := 0;
      while n < |entries| && freed < target
        invariant n <= |entries|
        invariant storage == old(storage) - Elements(entries[..n])
        invariant freed == SumOver(entries[..n], sizes)
        invariant n > 0 ==> SumOver(entries[..n - 1], sizes) < target
      {
        var key := entries[n];
        assert key in entries;
        assert entries[..n + 1][..n] == entries[..n];
        DropOneMore(old(storage), entries, n);
        storage := storage - {key};
        freed := freed + sizes[key];
        n := n + 1;
      }
    }

    /** The age-ordered stage of eviction. */
    method EvictOldest(target: nat)
      modifies this
      ensures EvictsOldest(prefix, old(storage), storage, target)
    {
      var sizes, created := Sizes(prefix, storage), Created(prefix, storage);
      assert sizes.Keys == created.Keys;
      var entries := Enumerate(created.Keys);
      SortKeepsEnumeration(entries, created.Keys, created);
      SortByRankSorts(entries, created);
      entries := SortByRank(entries, created);
      var n := RemoveUntilFreed(entries, sizes, target);
      PrefixFreesOldest(entries, sizes, created, n, target);
      PrefixIsGone(old(storage), entries, n);
    }

    method EvictIfNeeded(needed: nat, t0: nat, t1: nat, t2: nat)
      modifies this
      ensures Evicts(prefix, maxSizeBytes, needed, old(storage), storage, t0, t1, t2)
    {
      var currentSize := CalculateSize(t0);
      if currentSize + needed <= maxSizeBytes {
        return;
      }
      var _ := CleanupExpired(t1);
      currentSize := CalculateSize(t2);
      if currentSize + needed <= maxSizeBytes {
        return;
      }
      EvictOldest(currentSize + needed - maxSizeBytes);
    }

    method PutWithTtl(key: string, value: Bytes, ttl: nat, t0: nat, t1: nat, t2: nat, t3: nat)
      modifies this
      ensures Step(prefix, maxSizeBytes, old(storage), Put(key, value, ttl, t0, t1, t2, t3), storage)
    {
      EvictIfNeeded(|value|, t0, t1, t2);
      ghost var mid := storage;
      storage := storage[prefix + key := NewEntry(value, ttl, t3)];
      assert Evicts(prefix, maxSizeBytes, |value|, old(storage), mid, t0, t1, t2);
    }

    method Get(key: string, now: nat) returns (r: GetResult)
      modifies this
      ensures Step(prefix, maxSizeBytes, old(storage), Op.Get(key, now, strict, r), storage)
    {
      var storageKey := prefix + key;
      if storageKey !in storage {
        return Miss;
      }
      var item := storage[storageKey];
      if item.Unreadable? {
        return if strict then SerializationError else Miss;
      }
      if item.IsExpired(now) {
        storage := storage - {storageKey};
        return Miss;
      }
      r := if item.value.Some? then Hit(item.value.value) else Miss;
    }

    method Remove(key: string) returns (exists_: bool)
      modifies this
      ensures exists_ == (prefix + key in old(storage))
      ensures Step(prefix, maxSizeBytes, old(storage), Op.Remove(key), storage)
    {
      exists_ := prefix + key in storage;
      storage := storage - {prefix + key};
    }

    method Clear()
      modifies this
      ensures Step(prefix, maxSizeBytes, old(storage), Op.Clear, storage)
    {
      var keys := AllKeys();
      for i := 0 to |keys|
        invariant storage == old(storage) - Elements(keys[..i])
      {
        DropOneMore(old(storage), keys, i);
        storage := storage - {keys[i]};
      }
      assert keys[..|keys|] == keys;
    }
  }

  datatype Op =
    | Put(key: string, value: Bytes, ttl: nat, t0: nat, t1: nat, t2: nat, t3: nat)
    | Get(key: string, now: nat, strict: bool, result: GetResult)
    | Remove(key: string)
    | Clear

  ghost predicate Step(prefix: string, limit: nat, s: Storage, op: Op, t: Storage) {
    match op
    case Put(key, value, ttl, t0, t1, t2, t3) =>
      exists mid :: && Evicts(prefix, limit, |value|, s, mid, t0, t1, t2)
                    && t == mid[prefix + key := NewEntry(value, ttl, t3)]
    case Get(key, now, strict, result) =>
      var k := prefix + key;
      if k !in s then t == s && result == Miss
      else if s[k].Unreadable? then t == s && result == if strict then SerializationError else Miss
      else if s[k].IsExpired(now) then t == s - {k} && result == Miss
      else t == s && result == if s[k].value.Some? then Hit(s[k].value.value) else Miss
    case Remove(key) => t == s - {prefix + key}
    case Clear => t == map k | k in s && !(prefix <= k) :: s[k]
  }

  // ----- What eviction achieves -----

  lemma LiveBytesShrink(prefix: string, s: Storage, now: nat, later: nat)
    requires now <= later
    ensures LiveBytes(prefix, s, later) <= LiveBytes(prefix, s, now)
  {
    TotalOfSubMap(LiveSizes(prefix, s, later), LiveSizes(prefix, s, now));
  }

  lemma LiveBytesOfPart(prefix: string, s: Storage, t: Storage, now: nat)
    requires SubMap(t, s)
    ensures LiveBytes(prefix, t, now) <= LiveBytes(prefix, s, now)
  {
    TotalOfSubMap(LiveSizes(prefix, t, now), LiveSizes(prefix, s, now));
  }

  /** Bytes of evicted entries, and of those among them that had already lapsed when the
      store was measured. */
  ghost function Freed(prefix: string, before: Storage, after: Storage): nat {
    Total(Restrict(Sizes(prefix, before), before.Keys - after.Keys))
  }

  ghost function Stale(prefix: string, before: Storage, after: Storage, now: nat): nat {
    Total(Restrict(Sizes(prefix, before), before.Keys - after.Keys) - LiveSizes(prefix, before, now).Keys)
  }

  /** Eviction lowers the live bytes by what it freed, less what was stale. */
  lemma EvictionConserves(prefix: string, before: Storage, after: Storage, now: nat)
    requires SubMap(after, before)
    ensures LiveBytes(prefix, before, now)
            == LiveBytes(prefix, after, now) + Freed(prefix, before, after) - Stale(prefix, before, after, now)
  {
    var gone := before.Keys - after.Keys;
    TotalPartition(LiveSizes(prefix, before, now), gone);
    TotalPartition(Restrict(Sizes(prefix, before), gone), LiveSizes(prefix, before, now).Keys);
    LiveSizesSplit(prefix, before, after, now);
  }

  lemma LiveSizesSplit(prefix: string, before: Storage, after: Storage, now: nat)
    requires SubMap(after, before)
    ensures var gone, live := before.Keys - after.Keys, LiveSizes(prefix, before, now);
            && live - gone == LiveSizes(prefix, after, now)
            && Restrict(Restrict(Sizes(prefix, before), gone), live.Keys) == Restrict(live, gone)
  {
    var gone, live := before.Keys - after.Keys, LiveSizes(prefix, before, now);
    assert (live - gone).Keys == LiveSizes(prefix, after, now).Keys;
  }

  /** No entry of the cleaned store lapses before it is measured. */
  ghost predicate NoLapse(prefix: string, s: Storage, t1: nat, t2: nat) {
    forall k :: Ours(prefix, s, k) && s[k].IsExpired(t2) ==> s[k].IsExpired(t1)
  }

  lemma EvictionMakesRoom(
    prefix: string, limit: nat, needed: nat, s: Storage, t: Storage, t0: nat, t1: nat, t2: nat)
    requires Evicts(prefix, limit, needed, s, t, t0, t1, t2) && t0 <= t1 <= t2
    requires NoLapse(prefix, s, t1, t2)
    ensures LiveBytes(prefix, t, t2) + needed <= limit <==> needed <= limit
  {
    var c := Cleaned(prefix, s, t1);
    if needed <= limit {
      if LiveBytes(prefix, s, t0) + needed <= limit {
        LiveBytesShrink(prefix, s, t0, t2);
      } else if LiveBytes(prefix, c, t2) + needed > limit {
        NoLapseNoStale(prefix, s, t1, t2);
        StageMakesRoom(prefix, limit, needed, c, t, t2);
      }
    }
  }

  lemma NoLapseNoStale(prefix: string, s: Storage, t1: nat, t2: nat)
    requires t1 <= t2 && NoLapse(prefix, s, t1, t2)
    ensures var c := Cleaned(prefix, s, t1); Sizes(prefix, c) == LiveSizes(prefix, c, t2)
  {
  }

  lemma StageMakesRoom(prefix: string, limit: nat, needed: nat, c: Storage, t: Storage, now: nat)
    requires needed <= limit < LiveBytes(prefix, c, now) + needed
    requires Sizes(prefix, c) == LiveSizes(prefix, c, now)
    requires EvictsOldest(prefix, c, t, LiveBytes(prefix, c, now) + needed - limit)
    ensures LiveBytes(prefix, t, now) + needed <= limit
  {
    EvictionConserves(prefix, c, t, now);
    var gone := c.Keys - t.Keys;
    var sizes := Sizes(prefix, c);
    assert Restrict(sizes, gone) - sizes.Keys == map[];
    if gone == sizes.Keys {
      assert Restrict(sizes, gone) == sizes;
    }
  }

  // ----- When the clock moves between cleaning and measuring -----

  /** The sizes of the entries created at or before a moment. */
  ghost function UpTo(sizes: map<string, nat>, created: map<string, int>, moment: int): nat
    requires sizes.Keys <= created.Keys
  {
    Total(Restrict(sizes, set k | k in sizes && created[k] <= moment))
  }

  ghost predicate DistinctTimes(created: map<string, int>) {
    forall j, k :: j in created && k in created && j != k ==> created[j] != created[k]
  }

  lemma UpToGrows(sizes: map<string, nat>, created: map<string, int>, early: int, late: int)
    requires sizes.Keys <= created.Keys && early <= late
    ensures UpTo(sizes, created, early) <= UpTo(sizes, created, late)
  {
    TotalOfSubMap(Restrict(sizes, set k | k in sizes && created[k] <= early),
                  Restrict(sizes, set k | k in sizes && created[k] <= late));
  }

  lemma OldestFirstIsUpTo(created: map<string, int>, gone: set<string>, last: string)
    requires DistinctTimes(created) && OldestFirst(created, gone) && Newest(created, gone, last)
    ensures gone == set k | k in created && created[k] <= created[last]
  {
  }

  /** With distinct creation times, what the age-ordered stage takes is everything created up
      to the first moment that frees enough. */
  lemma EvictsUpToMoment(sizes: map<string, nat>, created: map<string, int>, gone: set<string>, target: nat)
    returns (moment: int)
    requires sizes.Keys == created.Keys && DistinctTimes(created)
    requires FreesOldest(sizes, created, gone, target) && 0 < target <= Total(sizes)
    ensures gone == set k | k in created && created[k] <= moment
    ensures UpTo(sizes, created, moment) >= target
    ensures forall early :: early < moment ==> UpTo(sizes, created, early) < target
  {
    assert Restrict(sizes, sizes.Keys) == sizes;
    assert Total(Restrict(sizes, gone)) >= target;
    assert gone != {} by {
      assert Restrict(sizes, {}) == map[];
    }
    var last :| Newest(created, gone, last) && Total(Restrict(sizes, gone - {last})) < target;
    moment := created[last];
    OldestFirstIsUpTo(created, gone, last);
    assert (set k | k in sizes && created[k] <= moment) == gone;
    forall early | early < moment ensures UpTo(sizes, created, early) < target {
      TotalOfSubMap(Restrict(sizes, set k | k in sizes && created[k] <= early), Restrict(sizes, gone - {last}));
    }
  }

  /** Whenever the entries up to some moment weigh enough, those of them that are alive do. */
  ghost predicate Enough(sizes: map<string, nat>, live: map<string, nat>, created: map<string, int>, target: nat)
    requires sizes.Keys <= created.Keys && live.Keys <= created.Keys
  {
    forall moment :: UpTo(sizes, created, moment) >= target ==> UpTo(live, created, moment) >= target
  }

  lemma EnoughAtCut(sizes: map<string, nat>, live: map<string, nat>, created: map<string, int>, cut: int, target: nat)
    requires sizes.Keys <= created.Keys && live.Keys <= created.Keys
    requires UpTo(sizes, created, cut) >= target
    requires forall early :: early < cut ==> UpTo(sizes, created, early) < target
    ensures UpTo(live, created, cut) >= target <==> Enough(sizes, live, created, target)
  {
    forall moment | UpTo(sizes, created, moment) >= target ensures UpTo(live, created, cut) <= UpTo(live, created, moment) {
      UpToGrows(live, created, cut, moment);
    }
  }

  lemma RestrictIsUpTo(live: map<string, nat>, created: map<string, int>, gone: set<string>, cut: int)
    requires live.Keys <= created.Keys && gone == set k | k in created && created[k] <= cut
    ensures Total(Restrict(live, gone)) == UpTo(live, created, cut)
  {
    assert Restrict(live, gone) == Restrict(live, set k | k in live && created[k] <= cut);
  }

  lemma EnoughIsExact(
    sizes: map<string, nat>, live: map<string, nat>, created: map<string, int>, gone: set<string>, target: nat)
    requires sizes.Keys == created.Keys && live.Keys <= created.Keys && DistinctTimes(created)
    requires FreesOldest(sizes, created, gone, target) && 0 < target <= Total(sizes)
    ensures Total(Restrict(live, gone)) >= target <==> Enough(sizes, live, created, target)
  {
    var cut := EvictsUpToMoment(sizes, created, gone, target);
    RestrictIsUpTo(live, created, gone, cut);
    EnoughAtCut(sizes, live, created, cut, target);
  }

  ghost predicate LiveEnough(prefix: string, c: Storage, now: nat, target: nat) {
    Enough(Sizes(prefix, c), LiveSizes(prefix, c, now), Created(prefix, c), target)
  }

  lemma LiveBytesLeft(prefix: string, c: Storage, t: Storage, now: nat)
    requires SubMap(t, c)
    ensures LiveBytes(prefix, t, now) + Total(Restrict(LiveSizes(prefix, c, now), c.Keys - t.Keys)) == LiveBytes(prefix, c, now)
  {
    TotalPartition(LiveSizes(prefix, c, now), c.Keys - t.Keys);
    LiveSizesSplit(prefix, c, t, now);
  }

  /** The exact condition on the store before the stage, for distinct creation times: there is
      room afterwards if and only if the live entries up to a moment free enough whenever all
      entries up to it do. */
  lemma LapseCondition(prefix: string, limit: nat, needed: nat, c: Storage, t: Storage, now: nat)
    requires needed <= limit < LiveBytes(prefix, c, now) + needed && DistinctTimes(Created(prefix, c))
    requires EvictsOldest(prefix, c, t, LiveBytes(prefix, c, now) + needed - limit)
    ensures LiveBytes(prefix, t, now) + needed <= limit <==>
              LiveEnough(prefix, c, now, LiveBytes(prefix, c, now) + needed - limit)
  {
    var sizes, live, created := Sizes(prefix, c), LiveSizes(prefix, c, now), Created(prefix, c);
    TotalOfSubMap(live, sizes);
    EnoughIsExact(sizes, live, created, c.Keys - t.Keys, LiveBytes(prefix, c, now) + needed - limit);
    LiveBytesLeft(prefix, c, t, now);
  }

  /** Whenever the entries up to some moment weigh enough, the live ones before it do. */
  ghost predicate LiveEarlier(prefix: string, c: Storage, now: nat, target: nat) {
    var sizes, live, created := Sizes(prefix, c), LiveSizes(prefix, c, now), Created(prefix, c);
    forall moment :: UpTo(sizes, created, moment) >= target ==> UpTo(live, created, moment - 1) >= target
  }

  /** Entries created at the same moment may go in any order; then it suffices that the live
      entries strictly before a moment free enough whenever all entries up to it do. */
  lemma LapseWithTies(prefix: string, limit: nat, needed: nat, c: Storage, t: Storage, now: nat)
    requires needed <= limit < LiveBytes(prefix, c, now) + needed
    requires EvictsOldest(prefix, c, t, LiveBytes(prefix, c, now) + needed - limit)
    requires LiveEarlier(prefix, c, now, LiveBytes(prefix, c, now) + needed - limit)
    ensures LiveBytes(prefix, t, now) + needed <= limit
  {
    var sizes, live, created := Sizes(prefix, c), LiveSizes(prefix, c, now), Created(prefix, c);
    var gone, target := c.Keys - t.Keys, LiveBytes(prefix, c, now) + needed - limit;
    TotalOfSubMap(live, sizes);
    assert Restrict(sizes, sizes.Keys) == sizes && Restrict(sizes, {}) == map[];
    var last :| Newest(created, gone, last) && Total(Restrict(sizes, gone - {last})) < target;
    var cut := created[last];
    TotalOfSubMap(Restrict(sizes, gone), Restrict(sizes, set k | k in sizes && created[k] <= cut));
    LiveBytesLeft(prefix, c, t, now);
    assert UpTo(sizes, created, cut) >= target;
    TotalOfSubMap(Restrict(live, set k | k in live && created[k] <= cut - 1), Restrict(live, gone));
  }

  /** What the caller can check before a put: one of the first two measurements leaves room, or
      no entry lapses between cleaning and measuring, or the live entries weigh enough. */
  ghost predicate Foreseeable(prefix: string, limit: nat, needed: nat, s: Storage, t0: nat, t1: nat, t2: nat) {
    var c := Cleaned(prefix, s, t1);
    || LiveBytes(prefix, s, t0) + needed <= limit
    || LiveBytes(prefix, c, t2) + needed <= limit
    || NoLapse(prefix, s, t1, t2)
    || LiveEarlier(prefix, c, t2, LiveBytes(prefix, c, t2) + needed - limit)
    || (DistinctTimes(Created(prefix, c)) && LiveEnough(prefix, c, t2, LiveBytes(prefix, c, t2) + needed - limit))
  }

  lemma CleaningKeepsTimes(prefix: string, s: Storage, now: nat)
    requires DistinctTimes(Created(prefix, s))
    ensures DistinctTimes(Created(prefix, Cleaned(prefix, s, now)))
  {
    var before, after := Created(prefix, s), Created(prefix, Cleaned(prefix, s, now));
    assert forall k :: k in after ==> k in before && after[k] == before[k];
  }

  /** A foreseeable put gets its room, if its value fits on its own. */
  lemma EvictionRoomIsForeseeable(
    prefix: string, limit: nat, needed: nat, s: Storage, t: Storage, t0: nat, t1: nat, t2: nat)
    requires Evicts(prefix, limit, needed, s, t, t0, t1, t2) && t0 <= t1 <= t2
    requires needed <= limit && Foreseeable(prefix, limit, needed, s, t0, t1, t2)
    ensures LiveBytes(prefix, t, t2) + needed <= limit
  {
    var c := Cleaned(prefix, s, t1);
    if NoLapse(prefix, s, t1, t2) {
      EvictionMakesRoom(prefix, limit, needed, s, t, t0, t1, t2);
    } else if LiveBytes(prefix, s, t0) + needed <= limit {
      LiveBytesShrink(prefix, s, t0, t2);
    } else if LiveBytes(prefix, c, t2) + needed > limit {
      if LiveEarlier(prefix, c, t2, LiveBytes(prefix, c, t2) + needed - limit) {
        LapseWithTies(prefix, limit, needed, c, t, t2);
      } else {
        LapseCondition(prefix, limit, needed, c, t, t2);
      }
    }
  }

  /** With distinct creation times no other put does. */
  lemma RoomWasForeseeable(
    prefix: string, limit: nat, needed: nat, s: Storage, t: Storage, t0: nat, t1: nat, t2: nat)
    requires Evicts(prefix, limit, needed, s, t, t0, t1, t2) && DistinctTimes(Created(prefix, s))
    requires LiveBytes(prefix, t, t2) + needed <= limit
    ensures needed <= limit && Foreseeable(prefix, limit, needed, s, t0, t1, t2)
  {
    var c := Cleaned(prefix, s, t1);
    if LiveBytes(prefix, s, t0) + needed > limit && LiveBytes(prefix, c, t2) + needed > limit {
      CleaningKeepsTimes(prefix, s, t1);
      LapseCondition(prefix, limit, needed, c, t, t2);
    }
  }

  /** After a put that stays alive, the live bytes are within the limit exactly when the
      value itself is. */
  lemma PutRespectsLimit(prefix: string, limit: nat, s: Storage, op: Op, t: Storage)
    requires op.Put? && Step(prefix, limit, s, op, t)
    requires op.t0 <= op.t1 <= op.t2 <= op.t3 && Foreseeable(prefix, limit, |op.value|, s, op.t0, op.t1, op.t2)
    ensures |op.value| <= limit ==> LiveBytes(prefix, t, op.t3) <= limit
    ensures op.ttl > 0 ==> (LiveBytes(prefix, t, op.t3) <= limit <==> |op.value| <= limit)
  {
    var mid :| && Evicts(prefix, limit, |op.value|, s, mid, op.t0, op.t1, op.t2)
               && t == mid[prefix + op.key := NewEntry(op.value, op.ttl, op.t3)];
    if |op.value| <= limit {
      EvictionRoomIsForeseeable(prefix, limit, |op.value|, s, mid, op.t0, op.t1, op.t2);
    }
    LiveBytesShrink(prefix, mid, op.t2, op.t3);
    PutAddsItsSize(prefix, mid, prefix + op.key, NewEntry(op.value, op.ttl, op.t3), op.t3);
  }

  lemma PutAddsItsSize(prefix: string, s: Storage, k: string, e: Item, now: nat)
    requires prefix <= k && e.Entry?
    ensures LiveBytes(prefix, s[k := e], now) <= LiveBytes(prefix, s, now) + e.sizeBytes
    ensures !e.IsExpired(now) ==> LiveBytes(prefix, s[k := e], now) >= e.sizeBytes
  {
    var live, was := LiveSizes(prefix, s[k := e], now), LiveSizes(prefix, s, now);
    var sum := was[k := e.sizeBytes];
    TotalUpdate(was, k, e.sizeBytes);
    assert SubMap(live, sum);
    TotalOfSubMap(live, sum);
    if !e.IsExpired(now) {
      assert k in live && live[k] == e.sizeBytes;
      TotalSplit(live, k);
    }
  }

  /** Without that condition the limit can be missed: an entry lapses after the cleaning
      pass, is not measured, is evicted first and still counted as freed. */
  lemma LapseBreaksLimit() returns (s: Storage, op: Op, t: Storage)
    ensures op.Put? && Step("", 10, s, op, t) && |op.value| <= 10
    ensures op.t0 <= op.t1 <= op.t2 <= op.t3
    ensures LiveBytes("", t, op.t3) > 10
  {
    var a, b := Entry(Some(seq(5, _ => 0)), 0, 6, 5), Entry(Some(seq(10, _ => 0)), 1, 0, 10);
    var value: Bytes := seq(5, _ => 0);
    s := map["a" := a, "b" := b];
    var mid: Storage := map["b" := b];
    op := Put("c", value, 100, 0, 5, 7, 7);
    t := mid["" + "c" := NewEntry(value, 100, 7)];
    LapseMeasures(s);
    LapseEvicts(s, mid);
    assert Evicts("", 10, 5, s, mid, 0, 5, 7);
    assert "" + "c" == "c";
    LapseLeaves(t);
  }

  lemma LapseMeasures(s: Storage)
    requires s.Keys == {"a", "b"}
    requires s["a"].Entry? && s["a"].expiresAt == 6
    requires s["b"].Entry? && s["b"].expiresAt == 0 && s["b"].sizeBytes == 10
    ensures Cleaned("", s, 5) == s
    ensures LiveBytes("", s, 0) >= 10 && LiveBytes("", s, 7) == 10
  {
    TotalSplit(LiveSizes("", s, 0), "b");
    TotalOfOne(LiveSizes("", s, 7), "b");
  }

  lemma LapseLeaves(t: Storage)
    requires t.Keys == {"b", "c"}
    requires t["b"].Entry? && !t["b"].IsExpired(7) && t["b"].sizeBytes == 10
    requires t["c"].Entry? && !t["c"].IsExpired(7) && t["c"].sizeBytes == 5
    ensures LiveBytes("", t, 7) == 15
  {
    var live := LiveSizes("", t, 7);
    TotalSplit(live, "b");
    assert (live - {"b"}).Keys == {"c"};
    TotalOfOne(live - {"b"}, "c");
  }

  lemma LapseEvicts(s: Storage, mid: Storage)
    requires s.Keys == {"a", "b"} && mid.Keys == {"b"} && SubMap(mid, s)
    requires s["a"].Entry? && s["a"].createdAt == 0 && s["a"].sizeBytes == 5
    requires s["b"].Entry? && s["b"].createdAt == 1
    ensures EvictsOldest("", s, mid, 5)
  {
    var gone, sizes, created := s.Keys - mid.Keys, Sizes("", s), Created("", s);
    assert "a" in sizes && "a" in created && gone == {"a"};
    TotalOfOne(Restrict(sizes, gone), "a");
    assert Newest(created, gone, "a");
    assert Restrict(sizes, gone - {"a"}) == map[];
  }

  // ----- Every run -----

  /** One operation between two clock readings: a put whose value fits on its own and whose
      room is foreseeable, or any other operation. */
  ghost predicate Turn(prefix: string, limit: nat, s: Storage, c: nat, op: Op, t: Storage, d: nat) {
    && Step(prefix, limit, s, op, t)
    && c <= d
    && (op.Put? ==>
          && c <= op.t0 <= op.t1 <= op.t2 <= op.t3 <= d
          && |op.value| <= limit
          && Foreseeable(prefix, limit, |op.value|, s, op.t0, op.t1, op.t2))
  }

  ghost predicate Run(prefix: string, limit: nat, states: seq<Storage>, ops: seq<Op>, clock: seq<nat>) {
    && |states| == |clock| == |ops| + 1
    && LiveBytes(prefix, states[0], clock[0]) <= limit
    && forall i :: 0 <= i < |ops| ==> Turn(prefix, limit, states[i], clock[i], ops[i], states[i + 1], clock[i + 1])
  }

  lemma TurnRespectsLimit(prefix: string, limit: nat, s: Storage, c: nat, op: Op, t: Storage, d: nat)
    requires Turn(prefix, limit, s, c, op, t, d) && LiveBytes(prefix, s, c) <= limit
    ensures LiveBytes(prefix, t, d) <= limit
  {
    if op.Put? {
      PutRespectsLimit(prefix, limit, s, op, t);
      LiveBytesShrink(prefix, t, op.t3, d);
    } else {
      assert SubMap(t, s);
      LiveBytesOfPart(prefix, s, t, c);
      LiveBytesShrink(prefix, t, c, d);
    }
  }

  /** Live bytes stay within the limit over every run, from any store that starts within it. */
  lemma {:induction false} RunRespectsLimit(
    prefix: string, limit: nat, states: seq<Storage>, ops: seq<Op>, clock: seq<nat>, n: nat)
    requires Run(prefix, limit, states, ops, clock) && n <= |ops|
    ensures LiveBytes(prefix, states[n], clock[n]) <= limit
  {
    if n > 0 {
      RunRespectsLimit(prefix, limit, states, ops, clock, n - 1);
      assert Turn(prefix, limit, states[n - 1], clock[n - 1], ops[n - 1], states[n - 1 + 1], clock[n - 1 + 1]);
      TurnRespectsLimit(prefix, limit, states[n - 1], clock[n - 1], ops[n - 1], states[n], clock[n]);
    }
  }

  /** Nothing outside the cache's own entries is ever touched. */
  lemma ForeignItemsKept(prefix: string, limit: nat, s: Storage, op: Op, t: Storage, k: string)
    requires Step(prefix, limit, s, op, t) && !(prefix <= k)
    ensures k in s <==> k in t
    ensures k in s ==> t[k] == s[k]
  {
    if op.Put? {
      var mid :| && Evicts(prefix, limit, |op.value|, s, mid, op.t0, op.t1, op.t2)
                 && t == mid[prefix + op.key := NewEntry(op.value, op.ttl, op.t3)];
      var c := Cleaned(prefix, s, op.t1);
      assert k in s <==> k in c;
      assert k !in Sizes(prefix, c);
    }
  }
  // ----- What a read returns -----

  /** A value put is returned until its lifetime is over, and not from then on; only at the
      very beginning of time does a lifetime of zero never end. */
  lemma PutThenGet(prefix: string, limit: nat, s: Storage, put: Op, t: Storage, get: Op, u: Storage)
    requires put.Put? && Step(prefix, limit, s, put, t)
    requires get.Get? && get.key == put.key && Step(prefix, limit, t, get, u)
    ensures get.result == if get.now < put.t3 + put.ttl || put.t3 + put.ttl == 0 then Hit(put.value) else Miss
  {
  }

  /** What the store holds for a key at the start. */
  function Initially(prefix: string, s: Storage, key: string): Option<Bytes> {
    if prefix + key in s && s[prefix + key].Entry? then s[prefix + key].value else None
  }

  /** The value last put for a key, or held at the start, unless removed or cleared since. */
  ghost function Latest(prefix: string, s: Storage, ops: seq<Op>, key: string): Option<Bytes> {
    if ops == [] then Initially(prefix, s, key)
    else
      var before := Latest(prefix, s, ops[..|ops| - 1], key);
      match ops[|ops| - 1]
      case Put(j, value, _, _, _, _, _) => if j == key then Some(value) else before
      case Remove(j) => if j == key then None else before
      case Clear => None
      case _ => before
  }

  ghost predicate AnyRun(prefix: string, limit: nat, states: seq<Storage>, ops: seq<Op>) {
    && |states| == |ops| + 1
    && forall i :: 0 <= i < |ops| ==> Step(prefix, limit, states[i], ops[i], states[i + 1])
  }

  lemma SamePrefix(prefix: string, j: string, k: string)
    ensures prefix + j == prefix + k <==> j == k
  {
    assert (prefix + j)[|prefix|..] == j && (prefix + k)[|prefix|..] == k;
  }

  /** An entry of the key either was just put or was there before. */
  lemma StepHolds(prefix: string, limit: nat, s: Storage, op: Op, t: Storage, key: string)
    requires Step(prefix, limit, s, op, t) && prefix + key in t && t[prefix + key].Entry?
    ensures !op.Clear? && !(op.Remove? && op.key == key)
    ensures op.Put? && op.key == key ==> t[prefix + key].value == Some(op.value)
    ensures !(op.Put? && op.key == key) ==> prefix + key in s && t[prefix + key] == s[prefix + key]
  {
    assert prefix <= prefix + key;
    if op.Put? {
      SamePrefix(prefix, op.key, key);
      var mid :| && Evicts(prefix, limit, |op.value|, s, mid, op.t0, op.t1, op.t2)
                 && t == mid[prefix + op.key := NewEntry(op.value, op.ttl, op.t3)];
      assert SubMap(Cleaned(prefix, s, op.t1), s) && SubMap(mid, s);
    }
  }

  lemma {:induction false} RunHoldsLatest(prefix: string, limit: nat, states: seq<Storage>, ops: seq<Op>, n: nat, key: string)
    requires AnyRun(prefix, limit, states, ops) && n <= |ops|
    requires prefix + key in states[n] && states[n][prefix + key].Entry?
    ensures states[n][prefix + key].value == Latest(prefix, states[0], ops[..n], key)
  {
    if n > 0 {
      assert Step(prefix, limit, states[n - 1], ops[n - 1], states[n - 1 + 1]);
      assert ops[..n][..n - 1] == ops[..n - 1] && ops[..n][n - 1] == ops[n - 1];
      StepHolds(prefix, limit, states[n - 1], ops[n - 1], states[n], key);
      if !(ops[n - 1].Put? && ops[n - 1].key == key) {
        RunHoldsLatest(prefix, limit, states, ops, n - 1, key);
      }
    }
  }

  /** In every run, whatever the clock does, a hit returns the value last put for the key, or
      held at the start, and not removed or cleared since. */
  lemma GetReturnsLatest(prefix: string, limit: nat, states: seq<Storage>, ops: seq<Op>, n: nat)
    requires AnyRun(prefix, limit, states, ops) && n < |ops| && ops[n].Get? && ops[n].result.Hit?
    ensures Latest(prefix, states[0], ops[..n], ops[n].key) == Some(ops[n].result.value)
  {
    assert Step(prefix, limit, states[n], ops[n], states[n + 1]);
    RunHoldsLatest(prefix, limit, states, ops, n, ops[n].key);
  }

  // ----- What eviction takes -----

  /** Of two readable entries of the cache, eviction takes the one created first, or an expired
      one; it takes nothing else. */
  lemma EvictionTakesOldest(
    prefix: string, limit: nat, needed: nat, s: Storage, t: Storage, t0: nat, t1: nat, t2: nat, v: string)
    requires Evicts(prefix, limit, needed, s, t, t0, t1, t2) && v in s && v !in t
    ensures prefix <= v && s[v].Entry?
    ensures (s[v].expiresAt != 0 && t1 >= s[v].expiresAt)
            || forall u :: u in t && prefix <= u && t[u].Entry? ==> s[v].createdAt <= t[u].createdAt
  {
    var c := Cleaned(prefix, s, t1);
    if v in c {
      assert v in Created(prefix, c);
      forall u | u in t && prefix <= u && t[u].Entry? ensures s[v].createdAt <= t[u].createdAt {
        assert u in c && u in Created(prefix, c);
        assert Created(prefix, c)[v] <= Created(prefix, c)[u];
      }
    }
  }
}

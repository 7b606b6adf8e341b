/** The zero-copy cache for large files: a map beside one byte counter, evicting the oldest
    entry until a new one fits. Clock readings are arguments. */
module ZeroCopy {
  import opened Common
  import opened Accounting

  datatype Entry = Entry(data: Bytes, createdAt: nat)

  type Store = map<int, Entry>

  ghost function Sizes(s: Store): map<int, nat> {
    map k | k in s :: |s[k].data|
  }

  ghost function Usage(s: Store): nat {
    Total(Sizes(s))
  }

  lemma UsageRemove(s: Store, k: int)
    requires k in s
    ensures Usage(s) == |s[k].data| + Usage(s - {k})
  {
    TotalSplit(Sizes(s), k);
    assert Sizes(s) - {k} == Sizes(s - {k});
  }

  lemma UsageInsert(s: Store, k: int, e: Entry)
    ensures Usage(s[k := e]) == Usage(s) - (if k in s then |s[k].data| else 0) + |e.data|
    ensures k in s ==> |s[k].data| <= Usage(s)
  {
    assert Sizes(s[k := e]) == Sizes(s)[k := |e.data|];
    ChargeInsert(s, Sizes(s), k, e, |e.data|);
  }

  ghost predicate NewestGone(before: Store, after: Store, last: int) {
    && last in before && last !in after
    && forall v :: v in before && v !in after ==> before[v].createdAt <= before[last].createdAt
  }

  /** Entries went oldest first, the rest leaves room for `size` bytes (or nothing is left),
      and one entry fewer would not have left room. */
  ghost predicate MakesRoom(limit: nat, before: Store, after: Store, size: nat) {
    && SubMap(after, before)
    && (forall v, s :: v in before && v !in after && s in after ==> before[v].createdAt <= before[s].createdAt)
    && (Usage(after) + size <= limit || after == map[])
    && (after != before ==> exists last :: NewestGone(before, after, last)
                                           && Usage(after) + |before[last].data| + size > limit)
  }

  /** Within the limit, unless one oversized entry is alone in the cache. */
  ghost predicate Bounded(limit: nat, s: Store) {
    Usage(s) <= limit || exists k :: s.Keys == {k} && |s[k].data| > limit
  }

  lemma SmallerIsBounded(limit: nat, s: Store, t: Store)
    requires Bounded(limit, s) && SubMap(t, s) && Usage(t) <= Usage(s)
    ensures Bounded(limit, t)
  {
    if Usage(s) > limit {
      var k :| s.Keys == {k} && |s[k].data| > limit;
      if k in t {
        assert t.Keys == {k};
      } else {
        assert t == map[];
      }
    }
  }

  datatype Op =
    | Get(key: int, result: Option<Bytes>)
    | Put(key: int, data: Bytes, now: nat)
    | Remove(key: int)
    | Clear
    | Compact(ttl: nat, now: nat)

  ghost predicate Step(limit: nat, s: Store, op: Op, t: Store) {
    match op
    case Get(k, result) => t == s && result == if k in s then Some(s[k].data) else None
    case Put(k, data, now) => exists mid :: MakesRoom(limit, s, mid, |data|) && t == mid[k := Entry(data, now)]
    case Remove(k) => t == s - {k}
    case Clear => t == map[]
    case Compact(ttl, now) => t == map k | k in s && now - s[k].createdAt <= ttl :: s[k]
  }

  class ZeroCopyCache {
    var entries: Store
    var totalMemory: nat
    const maxMemory: nat

    ghost predicate Valid()
      reads this
    {
      totalMemory == Usage(entries) && Bounded(maxMemory, entries)
    }

    constructor (maxMemory: nat)
      ensures Valid() && entries == map[] && this.maxMemory == maxMemory
    {
      this.maxMemory := maxMemory;
      entries, totalMemory := map[], 0;
    }

    method Remove(key: int) returns (removed: bool)
      requires Valid()
      modifies this
      ensures Valid() && removed == (key in old(entries)) && Step(maxMemory, old(entries), Op.Remove(key), entries)
    {
      removed := key in entries;
      if removed {
        UsageRemove(entries, key);
        SmallerIsBounded(maxMemory, entries, entries - {key});
        totalMemory := totalMemory - |entries[key].data|;
      } else {
        assert entries - {key} == entries;
      }
      entries := entries - {key};
    }

    /** An entry no newer than any other. */
    method Oldest() returns (k: int)
      requires entries != map[]
      ensures k in entries && forall j :: j in entries ==> entries[k].createdAt <= entries[j].createdAt
    {
      var keys := Enumerate(entries.Keys);
      assert |keys| == |entries| > 0;
      k := keys[0];
      for i := 1 to |keys|
        invariant k in entries
        invariant forall j :: 0 <= j < i ==> keys[j] in entries && entries[k].createdAt <= entries[keys[j]].createdAt
      {
        assert keys[i] in entries;
        if entries[keys[i]].createdAt < entries[k].createdAt {
          k := keys[i];
        }
      }
      forall j | j in entries ensures entries[k].createdAt <= entries[j].createdAt {
        assert j in keys;
      }
    }

    method EvictLru() returns (ghost victim: int)
      requires Valid() && entries != map[]
      modifies this
      ensures Valid() && victim in old(entries) && entries == old(entries) - {victim}
      ensures forall j :: j in old(entries) ==> old(entries)[victim].createdAt <= old(entries)[j].createdAt
    {
      var oldest := Oldest();
      var _ := Remove(oldest);
      victim := oldest;
    }

    method MakeRoom(size: nat)
      requires Valid()
      modifies this
      ensures Valid() && MakesRoom(maxMemory, old(entries), entries, size)
    {
      while totalMemory + size > maxMemory && entries != map[]
        invariant Valid()
        invariant SubMap(entries, old(entries))
        invariant forall v, s :: v in old(entries) && v !in entries && s in entries ==>
                                   old(entries)[v].createdAt <= old(entries)[s].createdAt
        invariant entries != old(entries) ==>
                    exists last :: NewestGone(old(entries), entries, last)
                                   && Usage(entries) + |old(entries)[last].data| + size > maxMemory
        decreases |entries|
      {
        ghost var before := entries;
        var victim := EvictLru();
        UsageRemove(before, victim);
        RemoveShrinks(before, victim);
        assert NewestGone(old(entries), entries, victim);
      }
    }

    method Put(key: int, data: Bytes, now: nat)
      requires Valid()
      modifies this
      ensures Valid() && Step(maxMemory, old(entries), Op.Put(key, data, now), entries)
    {
      var size := |data|;
      MakeRoom(size);
      ghost var mid := entries;
      UsageInsert(entries, key, Entry(data, now));
      if key in entries {
        totalMemory := totalMemory - |entries[key].data|;
      }
      entries := entries[key := Entry(data, now)];
      totalMemory := totalMemory + size;
      assert mid == map[] ==> entries.Keys == {key};
    }

    method Get(key: int) returns (r: Option<Bytes>)
      ensures Step(maxMemory, entries, Op.Get(key, r), entries)
    {
      r := if key in entries then Some(entries[key].data) else None;
    }

    method Clear()
      requires Valid()
      modifies this
      ensures Valid() && Step(maxMemory, old(entries), Op.Clear, entries)
    {
      entries, totalMemory := map[], 0;
    }

    /** Keep exactly the entries that are not older than `ttl`. */
    method Compact(ttl: nat, now: nat)
      requires Valid()
      modifies this
      ensures Valid() && Step(maxMemory, old(entries), Op.Compact(ttl, now), entries)
    {
      var expired := set k | k in entries && now - entries[k].createdAt > ttl;
      var keys := Enumerate(expired);
      for i := 0 to |keys|
        invariant Valid() && entries == old(entries) - Elements(keys[..i])
      {
        var _ := Remove(keys[i]);
        DropOneMore(old(entries), keys, i);
      }
      assert keys[..|keys|] == keys;
      assert Elements(keys) == expired;
    }
  }

  // ----- Every run -----

  ghost predicate Run(limit: nat, states: seq<Store>, ops: seq<Op>) {
    && |states| == |ops| + 1 && states[0] == map[]
    && forall i :: 0 <= i < |ops| ==> Step(limit, states[i], ops[i], states[i + 1])
  }

  lemma StepKeepsBounded(limit: nat, s: Store, op: Op, t: Store)
    requires Bounded(limit, s) && Step(limit, s, op, t)
    ensures Bounded(limit, t)
  {
    if op.Put? {
      var mid :| MakesRoom(limit, s, mid, |op.data|) && t == mid[op.key := Entry(op.data, op.now)];
      UsageInsert(mid, op.key, Entry(op.data, op.now));
      assert mid == map[] ==> t.Keys == {op.key};
    } else if !op.Clear? {
      assert SubMap(t, s);
      TotalOfSubMap(Sizes(t), Sizes(s));
      SmallerIsBounded(limit, s, t);
    }
  }

  /** In every run memory is within the limit unless one oversized entry is alone. */
  lemma {:induction false} RunIsBounded(limit: nat, states: seq<Store>, ops: seq<Op>, n: nat)
    requires Run(limit, states, ops) && n <= |ops|
    ensures Bounded(limit, states[n])
  {
    if n > 0 {
      RunIsBounded(limit, states, ops, n - 1);
      assert Step(limit, states[n - 1], ops[n - 1], states[n - 1 + 1]);
      StepKeepsBounded(limit, states[n - 1], ops[n - 1], states[n]);
    }
  }

  /** The data of the last put of `k`, unless it was removed since. */
  ghost function Latest(ops: seq<Op>, k: int): Option<Bytes> {
    if ops == [] then None
    else
      var before := Latest(ops[..|ops| - 1], k);
      match ops[|ops| - 1]
      case Put(j, data, _) => if j == k then Some(data) else before
      case Remove(j) => if j == k then None else before
      case Clear => None
      case _ => before
  }

  lemma {:induction false} RunHoldsLatest(limit: nat, states: seq<Store>, ops: seq<Op>, n: nat, k: int)
    requires Run(limit, states, ops) && n <= |ops| && k in states[n]
    ensures Latest(ops[..n], k) == Some(states[n][k].data)
  {
    if n > 0 {
      var s, op, t := states[n - 1], ops[n - 1], states[n - 1 + 1];
      assert Step(limit, s, op, t);
      assert ops[..n][..n - 1] == ops[..n - 1] && ops[..n][n - 1] == op;
      if !(op.Put? && op.key == k) {
        assert k in s && t[k] == s[k];
        RunHoldsLatest(limit, states, ops, n - 1, k);
      }
    }
  }

  /** In every run a hit returns the bytes put last for the key and not removed since. */
  lemma GetReturnsLatest(limit: nat, states: seq<Store>, ops: seq<Op>, n: nat)
    requires Run(limit, states, ops) && n < |ops| && ops[n].Get? && ops[n].result.Some?
    ensures ops[n].result == Latest(ops[..n], ops[n].key)
  {
    assert Step(limit, states[n], ops[n], states[n + 1]);
    RunHoldsLatest(limit, states, ops, n, ops[n].key);
  }
  /** What is put is returned, whatever had to go for it. */
  lemma PutThenGet(limit: nat, s: Store, put: Op, t: Store, get: Op, u: Store)
    requires put.Put? && Step(limit, s, put, t) && get.Get? && get.key == put.key && Step(limit, t, get, u)
    ensures get.result == Some(put.data)
  {
  }

  /** The time of the last put of `k`. */
  ghost function PutTime(ops: seq<Op>, k: int): nat {
    if ops == [] then 0
    else
      match ops[|ops| - 1]
      case Put(j, _, now) => if j == k then now else PutTime(ops[..|ops| - 1], k)
      case _ => PutTime(ops[..|ops| - 1], k)
  }

  lemma {:induction false} RunStamps(limit: nat, states: seq<Store>, ops: seq<Op>, n: nat, k: int)
    requires Run(limit, states, ops) && n <= |ops| && k in states[n]
    ensures states[n][k].createdAt == PutTime(ops[..n], k)
  {
    if n > 0 {
      var s, op, t := states[n - 1], ops[n - 1], states[n - 1 + 1];
      assert Step(limit, s, op, t);
      assert ops[..n][..n - 1] == ops[..n - 1] && ops[..n][n - 1] == op;
      if !(op.Put? && op.key == k) {
        assert k in s && t[k] == s[k];
        RunStamps(limit, states, ops, n - 1, k);
      }
    }
  }

  /** In every run a put takes the entries put longest ago. */
  lemma RunEvictsOldest(limit: nat, states: seq<Store>, ops: seq<Op>, n: nat, v: int, u: int)
    requires Run(limit, states, ops) && n < |ops| && ops[n].Put? && u != ops[n].key
    requires v in states[n] && v !in states[n + 1] && u in states[n] && u in states[n + 1]
    ensures PutTime(ops[..n], v) <= PutTime(ops[..n], u)
  {
    var op := ops[n];
    assert Step(limit, states[n], op, states[n + 1]);
    var mid :| MakesRoom(limit, states[n], mid, |op.data|) && states[n + 1] == mid[op.key := Entry(op.data, op.now)];
    assert v !in mid && u in mid;
    RunStamps(limit, states, ops, n, v);
    RunStamps(limit, states, ops, n, u);
  }
}

/** Byte totals over a store, and eviction by rank: what the caches share. */
module Accounting {

  // ----- The total of a map of sizes -----

  ghost function Total<K>(sizes: map<K, nat>): nat
    decreases |sizes|
  {
    if sizes == map[] then 0
    else
      var k :| k in sizes;
      RemoveShrinks(sizes, k);
      sizes[k] + Total(sizes - {k})
  }

  lemma RemoveShrinks<K, V>(m: map<K, V>, k: K)
    requires k in m
    ensures |m - {k}| == |m| - 1
    ensures (m - {k}).Keys == m.Keys - {k}
  {
    assert (m - {k}).Keys == m.Keys - {k};
  }

  lemma InsertSize<K, V>(s: map<K, V>, k: K, v: V)
    ensures |s[k := v]| == |s| + (if k in s then 0 else 1)
  {
    assert s[k := v].Keys == s.Keys + {k};
    if k in s {
      assert s.Keys + {k} == s.Keys;
    }
  }

  lemma SubsetSize<T>(a: set<T>, b: set<T>)
    requires a <= b
    ensures |a| <= |b|
  {
    assert a + (b - a) == b;
  }

  /** Any key may be counted first. */
  lemma {:induction false} TotalSplit<K>(sizes: map<K, nat>, k: K)
    requires k in sizes
    ensures Total(sizes) == sizes[k] + Total(sizes - {k})
    decreases |sizes|
  {
    var j :| j in sizes && Total(sizes) == sizes[j] + Total(sizes - {j});
    RemoveShrinks(sizes, j);
    RemoveShrinks(sizes, k);
    if j != k {
      TotalSplit(sizes - {j}, k);
      TotalSplit(sizes - {k}, j);
      assert sizes - {j} - {k} == sizes - {k} - {j};
    }
  }

  lemma TotalOfOne<K>(sizes: map<K, nat>, k: K)
    requires sizes.Keys == {k}
    ensures Total(sizes) == sizes[k]
  {
    TotalSplit(sizes, k);
    assert sizes - {k} == map[];
  }

  lemma TotalUpdate<K>(sizes: map<K, nat>, k: K, n: nat)
    ensures Total(sizes[k := n]) + (if k in sizes then sizes[k] else 0) == Total(sizes) + n
  {
    TotalSplit(sizes[k := n], k);
    if k in sizes {
      TotalSplit(sizes, k);
      assert sizes[k := n] - {k} == sizes - {k};
    } else {
      assert sizes[k := n] - {k} == sizes;
    }
  }

  function Restrict<K>(sizes: map<K, nat>, keys: set<K>): map<K, nat> {
    map k | k in sizes && k in keys :: sizes[k]
  }

  lemma PartitionWithout<K>(sizes: map<K, nat>, keys: set<K>, k: K)
    requires k in sizes
    ensures k in keys ==> sizes - {k} - keys == sizes - keys
    ensures k in keys ==> Restrict(sizes - {k}, keys) == Restrict(sizes, keys) - {k}
    ensures k !in keys ==> sizes - {k} - keys == sizes - keys - {k}
    ensures k !in keys ==> Restrict(sizes - {k}, keys) == Restrict(sizes, keys)
  {
  }

  /** Dropping keys lowers the total by exactly what they held. */
  lemma {:induction false} TotalPartition<K>(sizes: map<K, nat>, keys: set<K>)
    ensures Total(sizes) == Total(sizes - keys) + Total(Restrict(sizes, keys))
    decreases |sizes|
  {
    if k :| k in sizes {
      RemoveShrinks(sizes, k);
      TotalSplit(sizes, k);
      TotalPartition(sizes - {k}, keys);
      PartitionWithout(sizes, keys, k);
      if k in keys {
        TotalSplit(Restrict(sizes, keys), k);
      } else {
        TotalSplit(sizes - keys, k);
      }
    } else {
      assert sizes - keys == map[] && Restrict(sizes, keys) == map[];
    }
  }

  /** Charging one entry of a map whose sizes are kept beside it. */
  lemma ChargeInsert<K, V>(m: map<K, V>, sizes: map<K, nat>, k: K, v: V, n: nat)
    requires sizes.Keys == m.Keys
    ensures Total(sizes[k := n]) == Total(sizes) - (if k in m then sizes[k] else 0) + n
    ensures k in m ==> sizes[k] <= Total(sizes)
    ensures |m[k := v]| == |m| + (if k in m then 0 else 1)
  {
    InsertSize(m, k, v);
    TotalUpdate(sizes, k, n);
    if k in m {
      TotalSplit(sizes, k);
    }
  }

  lemma {:induction false} TotalIsZero<K>(sizes: map<K, nat>)
    ensures Total(sizes) == 0 <==> forall k :: k in sizes ==> sizes[k] == 0
    decreases |sizes|
  {
    if k :| k in sizes {
      TotalSplit(sizes, k);
      RemoveShrinks(sizes, k);
      TotalIsZero(sizes - {k});
      assert forall j :: j in sizes ==> j == k || (j in sizes - {k} && (sizes - {k})[j] == sizes[j]);
    }
  }

  lemma TotalOfSubMap<K>(small: map<K, nat>, big: map<K, nat>)
    requires SubMap(small, big)
    ensures Total(small) <= Total(big)
  {
    TotalPartition(big, big.Keys - small.Keys);
    assert big - (big.Keys - small.Keys) == small;
  }

  // ----- Enumerating a store -----

  ghost predicate Enumerates<K(!new)>(keys: seq<K>, s: set<K>) {
    && (forall i, j :: 0 <= i < j < |keys| ==> keys[i] != keys[j])
    && (forall k :: k in keys <==> k in s)
    && |keys| == |s|
  }

  /** Visit a hash map: every key once, in no particular order. */
  method Enumerate<K(==, !new)>(s: set<K>) returns (keys: seq<K>)
    ensures Enumerates(keys, s)
  {
    keys := [];
    var rest := s;
    while rest != {}
      invariant rest <= s && |keys| == |s| - |rest|
      invariant forall k :: k in keys <==> k in s - rest
      invariant forall i, j :: 0 <= i < j < |keys| ==> keys[i] != keys[j]
    {
      var k :| k in rest;
      assert k !in keys;
      keys := keys + [k];
      rest := rest - {k};
    }
  }

  function Elements<K>(keys: seq<K>): set<K> {
    set k | k in keys
  }

  lemma DropOneMore<K, V>(m: map<K, V>, keys: seq<K>, i: nat)
    requires i < |keys|
    ensures m - Elements(keys[..i]) - {keys[i]} == m - Elements(keys[..i + 1])
  {
    assert keys[..i + 1] == keys[..i] + [keys[i]];
  }

  /** Sizes added up along a list of keys; keys without a size count nothing. */
  function SumOver<K>(keys: seq<K>, sizes: map<K, nat>): nat {
    if keys == [] then 0
    else
      var last := keys[|keys| - 1];
      SumOver(keys[..|keys| - 1], sizes) + (if last in sizes then sizes[last] else 0)
  }

  lemma {:induction false} SumOverIsTotal<K>(keys: seq<K>, sizes: map<K, nat>)
    requires forall i, j :: 0 <= i < j < |keys| ==> keys[i] != keys[j]
    requires forall k :: k in sizes ==> k in keys
    ensures SumOver(keys, sizes) == Total(sizes)
  {
    if keys == [] {
      assert sizes == map[];
    } else {
      var last, front := keys[|keys| - 1], keys[..|keys| - 1];
      LastApart(keys, sizes);
      SumOverOnly(front, sizes, sizes - {last});
      SumOverIsTotal(front, sizes - {last});
      TotalWithout(sizes, last);
    }
  }

  lemma LastApart<K>(keys: seq<K>, sizes: map<K, nat>)
    requires keys != [] && forall i, j :: 0 <= i < j < |keys| ==> keys[i] != keys[j]
    requires forall k :: k in sizes ==> k in keys
    ensures var last, front := keys[|keys| - 1], keys[..|keys| - 1];
            last !in front && forall k :: k in sizes - {last} ==> k in front
  {
    var last, front := keys[|keys| - 1], keys[..|keys| - 1];
    assert keys == front + [last];
  }

  lemma TotalWithout<K>(sizes: map<K, nat>, k: K)
    ensures Total(sizes) == (if k in sizes then sizes[k] else 0) + Total(sizes - {k})
  {
    if k in sizes {
      TotalSplit(sizes, k);
    } else {
      assert sizes - {k} == sizes;
    }
  }

  lemma {:induction false} SumOverOnly<K>(keys: seq<K>, a: map<K, nat>, b: map<K, nat>)
    requires forall k :: k in keys ==> (k in a <==> k in b) && (k in a ==> a[k] == b[k])
    ensures SumOver(keys, a) == SumOver(keys, b)
  {
    if keys != [] {
      SumOverOnly(keys[..|keys| - 1], a, b);
      assert keys[|keys| - 1] in keys;
    }
  }

  // ----- Sorting by rank -----

  ghost predicate SortedByRank<K>(keys: seq<K>, rank: map<K, int>) {
    && (forall k :: k in keys ==> k in rank)
    && (forall i, j :: 0 <= i < j < |keys| ==> rank[keys[i]] <= rank[keys[j]])
  }

  function InsertByRank<K>(k: K, keys: seq<K>, rank: map<K, int>): (r: seq<K>)
    requires k in rank && forall j :: j in keys ==> j in rank
    ensures multiset(r) == multiset{k} + multiset(keys)
  {
    if keys == [] || rank[k] <= rank[keys[0]] then [k] + keys
    else
      assert keys == [keys[0]] + keys[1..];
      [keys[0]] + InsertByRank(k, keys[1..], rank)
  }

  lemma SortedCons<K>(k: K, keys: seq<K>, rank: map<K, int>)
    requires k in rank && SortedByRank(keys, rank)
    requires forall j :: j in keys ==> rank[k] <= rank[j]
    ensures SortedByRank([k] + keys, rank)
  {
    var r := [k] + keys;
    forall i, j | 0 <= i < j < |r| ensures rank[r[i]] <= rank[r[j]] {
      assert r[j] == keys[j - 1] && r[j] in keys;
      assert i > 0 ==> r[i] == keys[i - 1];
    }
  }

  lemma {:induction false} InsertKeepsSorted<K>(k: K, keys: seq<K>, rank: map<K, int>)
    requires k in rank && SortedByRank(keys, rank)
    ensures SortedByRank(InsertByRank(k, keys, rank), rank)
  {
    if keys == [] || rank[k] <= rank[keys[0]] {
      SortedCons(k, keys, rank);
    } else {
      var tail := InsertByRank(k, keys[1..], rank);
      InsertKeepsSorted(k, keys[1..], rank);
      forall j | j in tail ensures rank[keys[0]] <= rank[j] {
        assert j in multiset(tail);
        assert j == k || j in keys[1..];
      }
      SortedCons(keys[0], tail, rank);
    }
  }

  function SortByRank<K>(keys: seq<K>, rank: map<K, int>): (r: seq<K>)
    requires forall k :: k in keys ==> k in rank
    ensures multiset(r) == multiset(keys)
  {
    if keys == [] then []
    else
      assert keys == [keys[0]] + keys[1..];
      var rest := SortByRank(keys[1..], rank);
      assert forall k :: k in rest ==> k in multiset(rest);
      InsertByRank(keys[0], rest, rank)
  }

  lemma {:induction false} SortByRankSorts<K>(keys: seq<K>, rank: map<K, int>)
    requires forall k :: k in keys ==> k in rank
    ensures SortedByRank(SortByRank(keys, rank), rank)
  {
    if keys != [] {
      SortByRankSorts(keys[1..], rank);
      InsertKeepsSorted(keys[0], SortByRank(keys[1..], rank), rank);
    }
  }

  /** Sorting an enumeration gives an enumeration. */
  lemma SortKeepsEnumeration<K(!new)>(keys: seq<K>, s: set<K>, rank: map<K, int>)
    requires Enumerates(keys, s) && s <= rank.Keys
    ensures Enumerates(SortByRank(keys, rank), s)
  {
    var r := SortByRank(keys, rank);
    assert |r| == |multiset(r)| == |multiset(keys)| == |keys|;
    forall k ensures k in r <==> k in s {
      assert k in r <==> k in multiset(r);
      assert k in keys <==> k in multiset(keys);
    }
    forall i, j | 0 <= i < j < |r| ensures r[i] != r[j] {
      if r[i] == r[j] {
        Distinct(keys, r[i]);
        Duplicate(r, i, j);
      }
    }
  }

  lemma Distinct<K>(keys: seq<K>, k: K)
    requires forall i, j :: 0 <= i < j < |keys| ==> keys[i] != keys[j]
    ensures multiset(keys)[k] <= 1
  {
    if i :| 0 <= i < |keys| && keys[i] == k {
      assert keys == keys[..i] + [k] + keys[i + 1..];
      assert k !in keys[..i] && k !in keys[i + 1..];
    }
  }

  lemma Duplicate<K>(keys: seq<K>, i: nat, j: nat)
    requires i < j < |keys| && keys[i] == keys[j]
    ensures multiset(keys)[keys[i]] >= 2
  {
    assert keys == keys[..i] + [keys[i]] + keys[i + 1..j] + [keys[j]] + keys[j + 1..];
  }

  // ----- Eviction by rank -----

  ghost predicate SubMap<K, V>(small: map<K, V>, big: map<K, V>) {
    forall k :: k in small ==> k in big && small[k] == big[k]
  }

  lemma SubMapsAreEqual<K, V>(a: map<K, V>, b: map<K, V>)
    requires SubMap(a, b) && SubMap(b, a)
    ensures a == b
  {
  }

  /** Exactly `count` entries are gone (all of them, if there were fewer), and no survivor
      ranks below an entry that is gone. */
  ghost predicate RemovedByRank<K, V>(before: map<K, V>, after: map<K, V>, rank: map<K, int>, count: nat) {
    && before.Keys <= rank.Keys
    && SubMap(after, before)
    && |after| == (if count <= |before| then |before| - count else 0)
    && forall v, s :: v in before && v !in after && s in after ==> rank[v] <= rank[s]
  }

  lemma {:induction false} LowestRank<K(!new), V>(m: map<K, V>, rank: map<K, int>) returns (low: K)
    requires m != map[] && m.Keys <= rank.Keys
    ensures low in m && forall k :: k in m ==> rank[low] <= rank[k]
    decreases |m|
  {
    var one :| one in m;
    RemoveShrinks(m, one);
    if m - {one} == map[] {
      low := one;
      assert forall k :: k in m ==> k == one || k in m - {one};
    } else {
      var rest := LowestRank(m - {one}, rank);
      low := if rank[one] <= rank[rest] then one else rest;
      assert forall k :: k in m ==> k == one || k in m - {one};
    }
  }

  /** Any number of entries can be removed by rank. */
  lemma {:induction false} SomeRemoval<K(!new), V>(before: map<K, V>, rank: map<K, int>, count: nat)
    returns (after: map<K, V>)
    requires before.Keys <= rank.Keys && count <= |before|
    ensures RemovedByRank(before, after, rank, count)
    decreases count
  {
    after := before;
    if count > 0 {
      after := SomeRemoval(before, rank, count - 1);
      var low := LowestRank(after, rank);
      RemoveShrinks(after, low);
      after := after - {low};
    }
  }

  ghost function RankedBelow<K, V>(m: map<K, V>, rank: map<K, int>, k: K): set<K>
    requires m.Keys <= rank.Keys && k in m
  {
    set j | j in m && rank[j] < rank[k]
  }

  ghost function RankedNoHigher<K, V>(m: map<K, V>, rank: map<K, int>, k: K): set<K>
    requires m.Keys <= rank.Keys && k in m
  {
    set j | j in m && j != k && rank[j] <= rank[k]
  }

  /** Equal ranks may go either way; but an entry with `count` below it stays, and one that
      stays has `count` others no higher. */
  lemma RemovedIsBetween<K(!new), V>(before: map<K, V>, after: map<K, V>, rank: map<K, int>, count: nat, k: K)
    requires RemovedByRank(before, after, rank, count) && k in before
    ensures |RankedBelow(before, rank, k)| >= count ==> k in after
    ensures k in after ==> |RankedNoHigher(before, rank, k)| >= count
  {
    var gone, below := before.Keys - after.Keys, RankedBelow(before, rank, k);
    assert after.Keys <= before.Keys;
    assert |gone| == |before.Keys| - |after.Keys|;
    if k in after {
      assert gone <= RankedNoHigher(before, rank, k);
      SubsetSize(gone, RankedNoHigher(before, rank, k));
      SubsetSize({k}, after.Keys);
    } else {
      assert below <= gone - {k};
      SubsetSize(below, gone - {k});
    }
  }

  lemma RemovesNone<K, V>(before: map<K, V>, after: map<K, V>, rank: map<K, int>)
    requires before.Keys <= rank.Keys
    ensures RemovedByRank(before, after, rank, 0) <==> after == before
  {
    if RemovedByRank(before, after, rank, 0) {
      assert after.Keys <= before.Keys && |after.Keys| == |before.Keys|;
      SameSizeSubset(after.Keys, before.Keys);
    }
  }

  lemma SameSizeSubset<T>(a: set<T>, b: set<T>)
    requires a <= b && |a| == |b|
    ensures a == b
  {
    assert |b - a| == 0;
  }

  lemma PrefixRanksLow<K(!new)>(keys: seq<K>, s: set<K>, rank: map<K, int>, n: nat, low: K, high: K)
    requires Enumerates(keys, s) && SortedByRank(keys, rank) && n <= |keys|
    requires low in keys[..n] && high in s && high !in keys[..n]
    ensures low in rank && high in rank && rank[low] <= rank[high]
  {
    var i :| 0 <= i < n && keys[..n][i] == low;
    assert high in keys;
    var j :| 0 <= j < |keys| && keys[j] == high;
    assert j >= n && keys[i] == low && keys[i] in keys;
  }

  /** Removing the first `n` keys of a sorted enumeration is eviction by rank. */
  lemma PrefixRemovesByRank<K(!new), V>(keys: seq<K>, before: map<K, V>, after: map<K, V>, rank: map<K, int>, n: nat)
    requires Enumerates(keys, before.Keys) && SortedByRank(keys, rank)
    requires n <= |keys|
    requires after == before - Elements(keys[..n])
    ensures RemovedByRank(before, after, rank, n)
  {
    PrefixSize(keys, n);
    var gone := Elements(keys[..n]);
    assert after.Keys == before.Keys - gone;
    forall k | k in gone ensures k in before {
      assert k in keys;
    }
    assert |before.Keys - gone| == |before.Keys| - |gone|;
    forall v, s | v in before && v !in after && s in after ensures rank[v] <= rank[s] {
      PrefixRanksLow(keys, before.Keys, rank, n, v, s);
    }
  }

  lemma {:induction false} PrefixSize<K>(keys: seq<K>, n: nat)
    requires n <= |keys|
    requires forall i, j :: 0 <= i < j < |keys| ==> keys[i] != keys[j]
    ensures |Elements(keys[..n])| == n
  {
    if n > 0 {
      PrefixSize(keys, n - 1);
      var less := Elements(keys[..n - 1]);
      assert keys[..n] == keys[..n - 1] + [keys[n - 1]];
      assert Elements(keys[..n]) == less + {keys[n - 1]};
      assert keys[n - 1] !in less;
    }
  }

  // ----- Freeing bytes, oldest first -----

  ghost predicate Newest<K>(created: map<K, int>, gone: set<K>, last: K) {
    last in gone && gone <= created.Keys && forall v :: v in gone ==> created[v] <= created[last]
  }

  ghost predicate OldestFirst<K(!new)>(created: map<K, int>, gone: set<K>) {
    && gone <= created.Keys
    && forall v, s :: v in gone && s in created && s !in gone ==> created[v] <= created[s]
  }

  /** Without the newest of them, the entries in `gone` hold fewer than `target` bytes. */
  ghost predicate Minimal<K(!new)>(sizes: map<K, nat>, created: map<K, int>, gone: set<K>, target: nat) {
    gone != {} ==> exists last :: Newest(created, gone, last) && Total(Restrict(sizes, gone - {last})) < target
  }

  /** The entries in `gone` are the oldest ones, they hold `target` bytes (or they are all
      there is), and without the newest of them they would hold too little. */
  ghost predicate FreesOldest<K(!new)>(sizes: map<K, nat>, created: map<K, int>, gone: set<K>, target: nat) {
    && OldestFirst(created, gone)
    && (Total(Restrict(sizes, gone)) >= target || gone == sizes.Keys)
    && Minimal(sizes, created, gone, target)
  }

  lemma PrefixTotal<K>(keys: seq<K>, sizes: map<K, nat>, n: nat)
    requires n <= |keys|
    requires forall i, j :: 0 <= i < j < |keys| ==> keys[i] != keys[j]
    ensures SumOver(keys[..n], sizes) == Total(Restrict(sizes, Elements(keys[..n])))
  {
    var some := Restrict(sizes, Elements(keys[..n]));
    SumOverOnly(keys[..n], sizes, some);
    SumOverIsTotal(keys[..n], some);
  }

  lemma LastOfPrefixIsNewest<K>(keys: seq<K>, created: map<K, int>, n: nat)
    requires 0 < n <= |keys| && SortedByRank(keys, created)
    requires forall i, j :: 0 <= i < j < |keys| ==> keys[i] != keys[j]
    ensures Newest(created, Elements(keys[..n]), keys[n - 1])
    ensures Elements(keys[..n]) - {keys[n - 1]} == Elements(keys[..n - 1])
  {
    var last := keys[n - 1];
    assert keys[..n] == keys[..n - 1] + [last];
    forall v | v in keys[..n] ensures v in created && created[v] <= created[last] {
      var i :| 0 <= i < n && keys[..n][i] == v;
      assert keys[i] == v && keys[i] in keys;
    }
  }

  lemma PrefixIsOldest<K(!new)>(keys: seq<K>, created: map<K, int>, n: nat)
    requires n <= |keys| && Enumerates(keys, created.Keys) && SortedByRank(keys, created)
    ensures OldestFirst(created, Elements(keys[..n]))
  {
    var gone := Elements(keys[..n]);
    forall k | k in gone ensures k in created {
      assert k in keys;
    }
    forall v, s | v in gone && s in created && s !in gone ensures created[v] <= created[s] {
      PrefixRanksLow(keys, created.Keys, created, n, v, s);
    }
  }

  lemma PrefixIsMinimal<K(!new)>(keys: seq<K>, sizes: map<K, nat>, created: map<K, int>, n: nat, target: nat)
    requires n <= |keys| && SortedByRank(keys, created)
    requires forall i, j :: 0 <= i < j < |keys| ==> keys[i] != keys[j]
    requires n > 0 ==> SumOver(keys[..n - 1], sizes) < target
    ensures Minimal(sizes, created, Elements(keys[..n]), target)
  {
    if n > 0 {
      PrefixTotal(keys, sizes, n - 1);
      LastOfPrefixIsNewest(keys, created, n);
      assert Total(Restrict(sizes, Elements(keys[..n]) - {keys[n - 1]})) < target;
    }
  }

  lemma PrefixSuffices<K(!new)>(keys: seq<K>, sizes: map<K, nat>, n: nat, target: nat)
    requires n <= |keys| && Enumerates(keys, sizes.Keys)
    requires n == |keys| || SumOver(keys[..n], sizes) >= target
    ensures Total(Restrict(sizes, Elements(keys[..n]))) >= target || Elements(keys[..n]) == sizes.Keys
  {
    if n == |keys| {
      assert keys[..n] == keys;
    } else {
      PrefixTotal(keys, sizes, n);
    }
  }

  /** Removing along a sorted enumeration until enough is freed. */
  lemma PrefixFreesOldest<K(!new)>(keys: seq<K>, sizes: map<K, nat>, created: map<K, int>, n: nat, target: nat)
    requires n <= |keys| && Enumerates(keys, created.Keys)
    requires SortedByRank(keys, created) && sizes.Keys == created.Keys
    requires n == |keys| || SumOver(keys[..n], sizes) >= target
    requires n > 0 ==> SumOver(keys[..n - 1], sizes) < target
    ensures FreesOldest(sizes, created, Elements(keys[..n]), target)
  {
    PrefixIsOldest(keys, created, n);
    PrefixIsMinimal(keys, sizes, created, n, target);
    PrefixSuffices(keys, sizes, n, target);
  }
}

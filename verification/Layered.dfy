/** The layered cache: ordered layers, each with the entries it would return and the keys it has
    listed. Entries fade at any time by eviction or expiry. A disk layer may hold an entry it
    has not listed, a file its index does not know; such an entry is read but not removed. */
module Layered {
  import opened Common
  import opened Accounting

  datatype Tracker = Tracker(hitCount: nat, firstAccess: nat, lastAccess: nat, currentLayer: nat)

  datatype Shelf<K> = Shelf(entries: map<K, Bytes>, listed: set<K>)

  type Layers<K> = seq<Shelf<K>>

  // ----- What the layers do -----

  /** A read lists the key it returns and forgets one it does not, be it that there is nothing
      to return or that the read fails. */
  function ReadOne<K>(m: Shelf<K>, k: K, fails: bool): (Shelf<K>, Option<Bytes>) {
    if !fails && k in m.entries then (m.(listed := m.listed + {k}), Some(m.entries[k]))
    else (m.(listed := m.listed - {k}), None)
  }

  function Stored<K>(m: Shelf<K>, k: K, v: Bytes): Shelf<K> {
    Shelf(m.entries[k := v], m.listed + {k})
  }

  /** Only a listed key is removed. */
  function Removed<K>(m: Shelf<K>, k: K): Shelf<K> {
    if k in m.listed then Shelf(m.entries - {k}, m.listed - {k}) else m
  }

  /** Entries may go; one that stays is listed as before. */
  ghost predicate Fades<K>(m: Shelf<K>, n: Shelf<K>) {
    && SubMap(n.entries, m.entries) && n.listed <= m.listed
    && forall k :: k in n.entries && k in m.listed ==> k in n.listed
  }

  ghost predicate AllFade<K>(s: Layers<K>, t: Layers<K>) {
    |t| == |s| && forall i :: 0 <= i < |s| ==> Fades(s[i], t[i])
  }

  /** The layer where a lookup stops, or the number of layers; a layer that fails to answer
      counts as a miss. */
  function HitLayer<K>(layers: Layers<K>, failing: set<nat>, k: K): (i: nat)
    ensures i <= |layers|
    ensures i < |layers| ==> i !in failing && k in layers[i].entries
    ensures forall j :: 0 <= j < i ==> j in failing || k !in layers[j].entries
  {
    HitFrom(layers, failing, k, 0)
  }

  function HitFrom<K>(layers: Layers<K>, failing: set<nat>, k: K, start: nat): (i: nat)
    requires start <= |layers|
    ensures start <= i <= |layers|
    ensures i < |layers| ==> i !in failing && k in layers[i].entries
    ensures forall j :: start <= j < i ==> j in failing || k !in layers[j].entries
    decreases |layers| - start
  {
    if start == |layers| || (start !in failing && k in layers[start].entries) then start
    else HitFrom(layers, failing, k, start + 1)
  }

  /** The value a lookup returns. */
  function Lookup<K>(layers: Layers<K>, failing: set<nat>, k: K): Option<Bytes> {
    var i := HitLayer(layers, failing, k);
    if i < |layers| then Some(layers[i].entries[k]) else None
  }

  /** The layers after a lookup: each one asked has read the key. */
  function Asked<K>(layers: Layers<K>, failing: set<nat>, k: K): Layers<K> {
    var h := HitLayer(layers, failing, k);
    seq(|layers|, i requires 0 <= i < |layers| => if i <= h then ReadOne(layers[i], k, i in failing).0 else layers[i])
  }

  predicate OnlyAnswers(failing: set<nat>, layer: nat, count: nat) {
    layer !in failing && forall j :: 0 <= j < count && j != layer ==> j in failing
  }

  datatype Op<K> =
    | Get(key: K, failing: set<nat>, result: Option<Bytes>)
    | ReadLayer(key: K, layer: nat, fails: bool, result: Option<Bytes>)
    | Put(key: K, value: Bytes)
    | PutToLayer(key: K, value: Bytes, layer: nat)
    | Promote(key: K, from: nat, to: nat, fails: bool)
    | Remove(key: K)
    | Clear
    | Fade

  function Promoted<K>(layers: Layers<K>, k: K, from: nat, to: nat, fails: bool): Layers<K> {
    if from < |layers| && to < from then
      var (m, r) := ReadOne(layers[from], k, fails);
      if r.Some? then layers[from := m][to := Stored(layers[to], k, r.value)] else layers[from := m]
    else layers
  }

  function RemovedFromAll<K>(layers: Layers<K>, k: K): Layers<K> {
    seq(|layers|, i requires 0 <= i < |layers| => Removed(layers[i], k))
  }

  function Emptied<K>(n: nat): Layers<K> {
    seq(n, _ => Shelf(map[], {}))
  }

  ghost predicate Step<K>(s: Layers<K>, op: Op<K>, t: Layers<K>) {
    match op
    case Get(k, failing, result) => t == Asked(s, failing, k) && result == Lookup(s, failing, k)
    case ReadLayer(k, layer, fails, result) =>
      if layer < |s| then t == s[layer := ReadOne(s[layer], k, fails).0] && result == ReadOne(s[layer], k, fails).1
      else t == s && result == None
    case Put(k, v) => |s| > 0 && t == s[0 := Stored(s[0], k, v)]
    case PutToLayer(k, v, layer) => t == if layer < |s| then s[layer := Stored(s[layer], k, v)] else s
    case Promote(k, from, to, fails) => t == Promoted(s, k, from, to, fails)
    case Remove(k) => t == RemovedFromAll(s, k)
    case Clear => t == Emptied(|s|)
    case Fade => AllFade(s, t)
  }

  // ----- The cache object -----

  datatype Result<T> = Ok(value: T) | ReadError | InvalidConfiguration

  class LayeredCache<K(==, !new)> {
    var layers: Layers<K>
    var tracker: map<K, Tracker>
    var layerHits: seq<nat>
    var layerMisses: seq<nat>
    var promotionCount: nat

    ghost predicate Valid()
      reads this
    {
      |layers| > 0 && |layerHits| == |layerMisses| == |layers|
    }

    /** Layers start with what they can already answer: a disk layer opened on a used
        directory has entries and lists none of them. */
    constructor (initial: Layers<K>)
      requires |initial| > 0
      ensures Valid() && layers == initial && tracker == map[] && promotionCount == 0
      ensures forall j :: 0 <= j < |layers| ==> layerHits[j] == 0 && layerMisses[j] == 0
    {
      layers, tracker, promotionCount := initial, map[], 0;
      layerHits, layerMisses := seq(|initial|, _ => 0), seq(|initial|, _ => 0);
    }

    /** Try each layer in order. A hit counts once at its layer, every layer tried before it
        counts a miss, and the entry is tracked. */
    method Get(key: K, failing: set<nat>, now: nat) returns (r: Option<Bytes>)
      requires Valid()
      modifies this`layers, this`tracker, this`layerHits, this`layerMisses
      ensures Valid() && Step(old(layers), Op.Get(key, failing, r), layers)
      ensures var i := HitLayer(old(layers), failing, key);
              && (forall j :: 0 <= j < |layers| ==>
                    layerMisses[j] == old(layerMisses)[j] + (if j < i then 1 else 0))
              && (forall j :: 0 <= j < |layers| ==>
                    layerHits[j] == old(layerHits)[j] + (if j == i then 1 else 0))
              && tracker == (if i == |layers| then old(tracker)
                             else if key in old(tracker) then
                               var e := old(tracker)[key];
                               old(tracker)[key := e.(hitCount := e.hitCount + 1, lastAccess := now)]
                             else old(tracker)[key := Tracker(1, now, now, i)])
    {
      ghost var hit := HitLayer(layers, failing, key);
      for i := 0 to |layers|
        invariant Valid() && |layers| == |old(layers)| && layerHits == old(layerHits) && tracker == old(tracker)
        invariant i <= hit
        invariant forall j :: 0 <= j < |layers| ==>
                    layers[j] == if j < i then ReadOne(old(layers)[j], key, j in failing).0 else old(layers)[j]
        invariant forall j :: 0 <= j < |layers| ==> layerMisses[j] == old(layerMisses)[j] + (if j < i then 1 else 0)
      {
        var (shelf, found) := ReadOne(layers[i], key, i in failing);
        layers := layers[i := shelf];
        if found.Some? {
          assert hit == i && layers == Asked(old(layers), failing, key);
          layerHits := layerHits[i := layerHits[i] + 1];
          Track(key, i, now);
          return found;
        }
        layerMisses := layerMisses[i := layerMisses[i] + 1];
      }
      assert layers == Asked(old(layers), failing, key);
      r := None;
    }

    method Track(key: K, layer: nat, now: nat)
      modifies this`tracker
      ensures tracker == if key in old(tracker) then
                           var e := old(tracker)[key];
                           old(tracker)[key := e.(hitCount := e.hitCount + 1, lastAccess := now)]
                         else old(tracker)[key := Tracker(1, now, now, layer)]
    {
      if key in tracker {
        var e := tracker[key];
        tracker := tracker[key := e.(hitCount := e.hitCount + 1, lastAccess := now)];
      } else {
        tracker := tracker[key := Tracker(1, now, now, layer)];
      }
    }

    method Put(key: K, value: Bytes, now: nat)
      requires Valid()
      modifies this`layers, this`tracker
      ensures Valid() && Step(old(layers), Op.Put(key, value), layers)
      ensures tracker == old(tracker)[key := Tracker(1, now, now, 0)]
    {
      layers := layers[0 := Stored(layers[0], key, value)];
      tracker := tracker[key := Tracker(1, now, now, 0)];
    }

    method PutToLayer(key: K, value: Bytes, layer: nat) returns (r: Result<()>)
      requires Valid()
      modifies this`layers
      ensures Valid() && Step(old(layers), Op.PutToLayer(key, value, layer), layers)
      ensures r == if layer < |layers| then Ok(()) else InvalidConfiguration
    {
      if layer >= |layers| {
        return InvalidConfiguration;
      }
      layers := layers[layer := Stored(layers[layer], key, value)];
      r := Ok(());
    }

    /** What a lookup answers when every other layer fails; an error exactly for a layer that
        does not exist and for a failing read of a listed key. */
    method GetFromLayer(key: K, layer: nat, fails: bool) returns (r: Result<Option<Bytes>>)
      requires Valid()
      modifies this`layers
      ensures Valid()
      ensures Step(old(layers), Op.ReadLayer(key, layer, fails, if r.Ok? then r.value else None), layers)
      ensures r.InvalidConfiguration? <==> layer >= |layers|
      ensures r.ReadError? <==> layer < |layers| && fails && key in old(layers)[layer].listed
      ensures forall failing :: r.Ok? && !fails && OnlyAnswers(failing, layer, |layers|) ==>
                                  r.value == Lookup(old(layers), failing, key)
    {
      if layer >= |layers| {
        return InvalidConfiguration;
      }
      assert forall failing :: OnlyAnswers(failing, layer, |layers|) ==>
                                 HitLayer(layers, failing, key) in {layer, |layers|};
      var listed := key in layers[layer].listed;
      var (shelf, found) := ReadOne(layers[layer], key, fails);
      layers := layers[layer := shelf];
      r := if fails && listed then ReadError else Ok(found);
    }

    method Promote(key: K, from: nat, to: nat, fails: bool) returns (r: Result<bool>)
      requires Valid()
      modifies this`layers, this`tracker, this`promotionCount
      ensures Valid() && Step(old(layers), Op.Promote(key, from, to, fails), layers)
      ensures r == if from >= |layers| || to >= |layers| then InvalidConfiguration
                   else if to < from && fails && key in old(layers)[from].listed then ReadError
                   else Ok(to < from && !fails && key in old(layers)[from].entries)
      ensures promotionCount == old(promotionCount) + (if r == Ok(true) then 1 else 0)
      ensures tracker == if r == Ok(true) && key in old(tracker)
                         then old(tracker)[key := old(tracker)[key].(currentLayer := to)] else old(tracker)
    {
      if from >= |layers| || to >= |layers| {
        return InvalidConfiguration;
      }
      if from <= to {
        return Ok(false);
      }
      var listed := key in layers[from].listed;
      var (shelf, found) := ReadOne(layers[from], key, fails);
      layers := layers[from := shelf];
      if found.None? {
        return if fails && listed then ReadError else Ok(false);
      }
      layers := layers[to := Stored(layers[to], key, found.value)];
      if key in tracker {
        tracker := tracker[key := tracker[key].(currentLayer := to)];
      }
      promotionCount := promotionCount + 1;
      r := Ok(true);
    }

    /** Only listed entries count, so a lookup may find what this does not: exactly when no
        layer that would answer has listed the key. */
    method Contains(key: K) returns (found: bool)
      ensures found ==> Lookup(layers, {}, key).Some?
      ensures Lookup(layers, {}, key).Some? && !found <==>
                && Lookup(layers, {}, key).Some?
                && forall j :: 0 <= j < |layers| && key in layers[j].entries ==> key !in layers[j].listed
    {
      for i := 0 to |layers|
        invariant forall j :: 0 <= j < i && key in layers[j].entries ==> key !in layers[j].listed
      {
        if key in layers[i].entries && key in layers[i].listed {
          return true;
        }
      }
      found := false;
    }

    method Remove(key: K) returns (found: bool)
      requires Valid()
      modifies this`layers, this`tracker
      ensures Valid() && Step(old(layers), Op.Remove(key), layers)
      ensures found <==> exists j :: 0 <= j < |layers| && key in old(layers)[j].listed
      ensures tracker == old(tracker) - {key}
    {
      found := false;
      for i := 0 to |layers|
        invariant |layers| == |old(layers)| && tracker == old(tracker)
        invariant forall j :: 0 <= j < |layers| ==>
                    layers[j] == if j < i then Removed(old(layers)[j], key) else old(layers)[j]
        invariant found <==> exists j :: 0 <= j < i && key in old(layers)[j].listed
      {
        if key in layers[i].listed {
          found := true;
        }
        layers := layers[i := Removed(layers[i], key)];
      }
      tracker := tracker - {key};
      assert layers == RemovedFromAll(old(layers), key);
    }

    method Clear()
      requires Valid()
      modifies this
      ensures Valid() && Step(old(layers), Op<K>.Clear, layers)
      ensures tracker == map[] && promotionCount == 0
      ensures forall j :: 0 <= j < |layers| ==> layerHits[j] == 0 && layerMisses[j] == 0
    {
      for i := 0 to |layers|
        invariant Valid() && |layers| == |old(layers)| && |layerHits| == |layers|
        invariant forall j :: 0 <= j < i ==> layers[j] == Shelf(map[], {})
      {
        layers := layers[i := Shelf(map[], {})];
      }
      assert layers == Emptied(|layers|);
      tracker, promotionCount := map[], 0;
      layerHits, layerMisses := seq(|layers|, _ => 0), seq(|layers|, _ => 0);
    }
  }

  // ----- Reading what was written -----

  /** What is put is returned, by a lookup as by the layer it was put to; nothing else changes. */
  lemma PutThenGet<K(!new)>(s: Layers<K>, k: K, v: Bytes, layer: nat, j: K, t: Layers<K>)
    requires layer < |s| && Step(s, PutToLayer(k, v, layer), t)
    ensures layer == 0 ==> Step(s, Put(k, v), t) && Lookup(t, {}, k) == Some(v)
    ensures ReadOne(t[layer], k, false).1 == Some(v)
    ensures j != k ==> Lookup(t, {}, j) == Lookup(s, {}, j)
  {
    if layer == 0 {
      assert HitLayer(t, {}, k) == 0;
    }
    if j != k {
      SameEntriesSameLookup(s, t, {}, j);
    }
  }

  // ----- Removal -----

  /** No layer holds an entry of the key that it has not listed. */
  ghost predicate Hides<K>(s: Layers<K>, k: K) {
    forall i :: 0 <= i < |s| && k in s[i].entries ==> k in s[i].listed
  }

  /** A removal hides the key exactly when every layer lists it or does not have it. */
  lemma RemoveHidesKey<K>(s: Layers<K>, k: K)
    ensures Lookup(RemovedFromAll(s, k), {}, k) == None <==> Hides(s, k)
  {
    var t := RemovedFromAll(s, k);
    var i := HitLayer(t, {}, k);
    if Hides(s, k) {
      assert i < |s| ==> k in t[i].entries && t[i] == Removed(s[i], k);
    } else {
      var j :| 0 <= j < |s| && k in s[j].entries && k !in s[j].listed;
      assert t[j] == s[j];
    }
  }

  // ----- Promotion -----

  /** Promotion leaves a lookup as it was exactly when a layer above the target answers, or
      the answer already was the promoted value. */
  lemma PromoteKeepsLookup<K>(s: Layers<K>, k: K, from: nat, to: nat)
    requires to < from < |s| && k in s[from].entries
    ensures Lookup(Promoted(s, k, from, to, false), {}, k) == Lookup(s, {}, k) <==>
              (exists j :: 0 <= j < to && k in s[j].entries) || Lookup(s, {}, k) == Some(s[from].entries[k])
  {
    var t := Promoted(s, k, from, to, false);
    var i := HitLayer(s, {}, k);
    if j :| 0 <= j < to && k in s[j].entries {
      assert i < to && HitLayer(t, {}, k) == i;
    } else {
      assert k in t[to].entries && forall j :: 0 <= j < to ==> t[j] == s[j];
      assert HitLayer(t, {}, k) == to;
    }
  }

  /** A middle layer that shadows the source: promoting past it changes the answer. */
  lemma PromoteUncoversOld<K(!new)>(k: K, newer: Bytes, outdated: Bytes) returns (s: Layers<K>)
    requires newer != outdated
    ensures s == [Shelf(map[], {}), Shelf(map[k := newer], {k}), Shelf(map[k := outdated], {k})]
    ensures Lookup(s, {}, k) == Some(newer) && Lookup(Promoted(s, k, 2, 0, false), {}, k) == Some(outdated)
  {
    s := [Shelf(map[], {}), Shelf(map[k := newer], {k}), Shelf(map[k := outdated], {k})];
    assert k !in s[0].entries && k in s[1].entries && HitLayer(s, {}, k) == 1;
    assert HitLayer(Promoted(s, k, 2, 0, false), {}, k) == 0;
  }

  /** Lookups depend on the entries only. */
  lemma SameEntriesSameLookup<K>(s: Layers<K>, t: Layers<K>, failing: set<nat>, k: K)
    requires |s| == |t|
    requires forall i :: 0 <= i < |s| ==> (k in s[i].entries <==> k in t[i].entries)
    requires forall i :: 0 <= i < |s| && k in s[i].entries ==> s[i].entries[k] == t[i].entries[k]
    ensures Lookup(s, failing, k) == Lookup(t, failing, k)
  {
    assert HitLayer(s, failing, k) == HitLayer(t, failing, k);
  }

  /** In particular for a key that no faster layer shadows; other keys are not affected, and a
      promotion that fails changes no lookup. */
  lemma PromoteUnshadowed<K>(s: Layers<K>, k: K, from: nat, to: nat, fails: bool, j: K)
    ensures fails || (forall i :: 0 <= i < from && i < |s| ==> k !in s[i].entries) ==>
              Lookup(Promoted(s, k, from, to, fails), {}, k) == Lookup(s, {}, k)
    ensures j != k ==> Lookup(Promoted(s, k, from, to, fails), {}, j) == Lookup(s, {}, j)
  {
    var t := Promoted(s, k, from, to, fails);
    if j != k {
      SameEntriesSameLookup(s, t, {}, j);
    }
    if !fails && to < from < |s| && k in s[from].entries {
      if forall i :: 0 <= i < from ==> k !in s[i].entries {
        PromoteKeepsLookup(s, k, from, to);
        assert HitLayer(s, {}, k) == from;
      }
    } else {
      SameEntriesSameLookup(s, t, {}, k);
    }
  }

  // ----- Every run -----

  ghost predicate Run<K(!new)>(states: seq<Layers<K>>, ops: seq<Op<K>>) {
    && |states| == |ops| + 1
    && forall i :: 0 <= i < |ops| ==> Step(states[i], ops[i], states[i + 1])
  }

  function Initially<K>(initial: Layers<K>, k: K): set<Bytes> {
    set i | 0 <= i < |initial| && k in initial[i].entries :: initial[i].entries[k]
  }

  /** The values stored for a key since it was last hidden, in a run's first `n` steps. */
  ghost function StoredFor<K>(states: seq<Layers<K>>, ops: seq<Op<K>>, n: nat, k: K): set<Bytes>
    requires |states| == |ops| + 1 && n <= |ops|
  {
    if n == 0 then Initially(states[0], k)
    else AfterOp(StoredFor(states, ops, n - 1, k), states[n - 1], ops[n - 1], k)
  }

  ghost function AfterOp<K>(stored: set<Bytes>, s: Layers<K>, op: Op<K>, k: K): set<Bytes> {
    match op
    case Put(j, v) => if j == k then stored + {v} else stored
    case PutToLayer(j, v, _) => if j == k then stored + {v} else stored
    case Remove(j) => if j == k && Hides(s, k) then {} else stored
    case Clear => {}
    case _ => stored
  }

  /** Every layer holds only values stored for the key. */
  ghost predicate HoldsStored<K>(s: Layers<K>, k: K, stored: set<Bytes>) {
    forall i :: 0 <= i < |s| && k in s[i].entries ==> s[i].entries[k] in stored
  }

  lemma StepHoldsStored<K(!new)>(s: Layers<K>, op: Op<K>, t: Layers<K>, k: K, stored: set<Bytes>)
    requires Step(s, op, t) && HoldsStored(s, k, stored)
    ensures HoldsStored(t, k, AfterOp(stored, s, op, k))
  {
    if op.Fade? {
      assert forall i :: 0 <= i < |s| ==> Fades(s[i], t[i]);
    }
  }

  lemma {:induction false} LayersHoldStored<K(!new)>(states: seq<Layers<K>>, ops: seq<Op<K>>, n: nat, k: K)
    requires Run(states, ops) && n <= |ops|
    ensures HoldsStored(states[n], k, StoredFor(states, ops, n, k))
  {
    if n > 0 {
      LayersHoldStored(states, ops, n - 1, k);
      assert Step(states[n - 1], ops[n - 1], states[n - 1 + 1]);
      StepHoldsStored(states[n - 1], ops[n - 1], states[n], k, StoredFor(states, ops, n - 1, k));
    }
  }

  /** In every run, from any layers, whatever fades and whichever reads fail, a lookup returns
      only a value held at the start or stored since, and not cleared or removed since by a
      removal that hid it. */
  lemma GetReturnsStored<K(!new)>(states: seq<Layers<K>>, ops: seq<Op<K>>, n: nat)
    requires Run(states, ops) && n < |ops| && (ops[n].Get? || ops[n].ReadLayer?) && ops[n].result.Some?
    ensures ops[n].result.value in StoredFor(states, ops, n, ops[n].key)
  {
    assert Step(states[n], ops[n], states[n + 1]);
    LayersHoldStored(states, ops, n, ops[n].key);
  }

  // ----- Runs without failing reads -----

  ghost predicate Reliable<K>(op: Op<K>) {
    && (op.Get? ==> op.failing == {})
    && (op.ReadLayer? || op.Promote? ==> !op.fails)
  }

  ghost predicate AllListed<K>(s: Layers<K>) {
    forall i :: 0 <= i < |s| ==> s[i].entries.Keys <= s[i].listed
  }

  lemma ReliableStepListsAll<K(!new)>(s: Layers<K>, op: Op<K>, t: Layers<K>)
    requires AllListed(s) && Step(s, op, t) && Reliable(op)
    ensures AllListed(t)
  {
    if op.Fade? {
      forall i | 0 <= i < |s| ensures t[i].entries.Keys <= t[i].listed {
        assert Fades(s[i], t[i]) && s[i].entries.Keys <= s[i].listed;
      }
    }
  }

  lemma {:induction false} ReliableRunListsAll<K(!new)>(states: seq<Layers<K>>, ops: seq<Op<K>>, n: nat)
    requires Run(states, ops) && n <= |ops| && AllListed(states[0])
    requires forall i :: 0 <= i < n ==> Reliable(ops[i])
    ensures AllListed(states[n])
  {
    if n > 0 {
      ReliableRunListsAll(states, ops, n - 1);
      assert Step(states[n - 1], ops[n - 1], states[n - 1 + 1]);
      ReliableStepListsAll(states[n - 1], ops[n - 1], states[n]);
    }
  }

  /** So from layers that list all they have, with no read failing, every removal hides its
      key, and a lookup returns only values stored since the key was last removed. */
  lemma ReliableRemoveHides<K(!new)>(states: seq<Layers<K>>, ops: seq<Op<K>>, n: nat)
    requires Run(states, ops) && n < |ops| && AllListed(states[0]) && ops[n].Remove?
    requires forall i :: 0 <= i < n ==> Reliable(ops[i])
    ensures Lookup(states[n + 1], {}, ops[n].key) == None
    ensures StoredFor(states, ops, n + 1, ops[n].key) == {}
  {
    ReliableRunListsAll(states, ops, n);
    assert Step(states[n], ops[n], states[n + 1]);
    RemoveHidesKey(states[n], ops[n].key);
    forall i | 0 <= i < |states[n]| && ops[n].key in states[n][i].entries ensures ops[n].key in states[n][i].listed {
      assert states[n][i].entries.Keys <= states[n][i].listed;
    }
  }

  // ----- Runs that store by `put` only -----

  /** The value last put for a key, unless it was hidden or cleared since. */
  ghost function LastPut<K>(states: seq<Layers<K>>, ops: seq<Op<K>>, n: nat, k: K): Option<Bytes>
    requires |states| == |ops| + 1 && n <= |ops|
  {
    if n == 0 then None
    else
      var before := LastPut(states, ops, n - 1, k);
      match ops[n - 1]
      case Put(j, v) => if j == k then Some(v) else before
      case Remove(j) => if j == k && Hides(states[n - 1], k) then None else before
      case Clear => None
      case _ => before
  }

  ghost predicate TopOnly<K>(s: Layers<K>) {
    forall i :: 0 < i < |s| ==> s[i].entries == map[]
  }

  lemma StepKeepsTopOnly<K(!new)>(s: Layers<K>, op: Op<K>, t: Layers<K>)
    requires TopOnly(s) && Step(s, op, t) && !op.PutToLayer?
    ensures |t| == |s| && TopOnly(t)
  {
    if op.Fade? {
      forall i | 0 < i < |s| ensures t[i].entries == map[] {
        assert Fades(s[i], t[i]) && s[i].entries == map[];
      }
    }
  }

  lemma {:induction false} TopHoldsLast<K(!new)>(count: nat, states: seq<Layers<K>>, ops: seq<Op<K>>, n: nat, k: K)
    requires Run(states, ops) && n <= |ops| && states[0] == Emptied(count)
    requires forall i :: 0 <= i < n ==> !ops[i].PutToLayer?
    ensures |states[n]| == count && TopOnly(states[n])
    ensures count > 0 && k in states[n][0].entries ==> LastPut(states, ops, n, k) == Some(states[n][0].entries[k])
  {
    if n > 0 {
      TopHoldsLast(count, states, ops, n - 1, k);
      assert Step(states[n - 1], ops[n - 1], states[n - 1 + 1]);
      StepKeepsTopOnly(states[n - 1], ops[n - 1], states[n]);
      if count > 0 && k in states[n][0].entries {
        TopStep(states[n - 1], ops[n - 1], states[n], k);
      }
    }
  }

  /** What an entry of the top layer can come from. */
  lemma TopStep<K(!new)>(s: Layers<K>, op: Op<K>, t: Layers<K>, k: K)
    requires Step(s, op, t) && TopOnly(s) && !op.PutToLayer? && |s| == |t| > 0 && k in t[0].entries
    ensures !op.Clear? && !(op.Remove? && op.key == k && Hides(s, k))
    ensures op.Put? && op.key == k ==> t[0].entries[k] == op.value
    ensures !(op.Put? && op.key == k) ==> k in s[0].entries && t[0].entries[k] == s[0].entries[k]
  {
    if op.Fade? {
      assert Fades(s[0], t[0]);
    }
  }

  /** When only `put` stores values, from empty layers, a lookup returns the latest one that
      was not hidden since. */
  lemma GetReturnsLatest<K(!new)>(count: nat, states: seq<Layers<K>>, ops: seq<Op<K>>, n: nat)
    requires Run(states, ops) && n < |ops| && states[0] == Emptied(count)
    requires ops[n].Get? && ops[n].result.Some?
    requires forall i :: 0 <= i < n ==> !ops[i].PutToLayer?
    ensures ops[n].result == LastPut(states, ops, n, ops[n].key)
  {
    assert Step(states[n], ops[n], states[n + 1]);
    TopHoldsLast(count, states, ops, n, ops[n].key);
  }

  // ----- Removed values that come back -----

  lemma OneShelf<K(!new)>(k: K, v: Bytes)
    ensures Stored(Shelf(map[], {}), k, v) == Shelf(map[k := v], {k})
    ensures ReadOne(Shelf(map[k := v], {k}), k, true) == (Shelf(map[k := v], {}), None)
    ensures ReadOne(Shelf(map[k := v], {}), k, false) == (Shelf(map[k := v], {k}), Some(v))
  {
    assert map[][k := v] == map[k := v];
    assert {} + {k} == {k} && {k} - {k} == {};
  }

  /** Put, a failing read, remove: the value is still returned. */
  lemma ReadErrorRevives<K(!new)>(k: K, v: Bytes) returns (states: seq<Layers<K>>, ops: seq<Op<K>>)
    ensures Run(states, ops) && states[0] == Emptied(1)
    ensures ops == [Put(k, v), Get(k, {0}, None), Remove(k), Get(k, {}, Some(v))]
  {
    var full, loose := [Shelf(map[k := v], {k})], [Shelf(map[k := v], {})];
    states := [Emptied(1), full, loose, loose, full];
    ops := [Put(k, v), Get(k, {0}, None), Remove(k), Get(k, {}, Some(v))];
    OneShelf(k, v);
    assert Emptied<K>(1)[0 := full[0]] == full;
    assert HitLayer(full, {0}, k) == 1 && Asked(full, {0}, k) == loose;
    assert RemovedFromAll(loose, k) == loose;
    assert HitLayer(loose, {}, k) == 0 && Asked(loose, {}, k) == full;
    assert Step(states[0], ops[0], states[0 + 1]);
    assert Step(states[1], ops[1], states[1 + 1]);
    assert Step(states[2], ops[2], states[2 + 1]);
    assert Step(states[3], ops[3], states[3 + 1]);
  }

  /** A reopened directory: a removal before the first read leaves the value. */
  lemma ReopeningRevives<K(!new)>(k: K, v: Bytes) returns (states: seq<Layers<K>>, ops: seq<Op<K>>)
    ensures Run(states, ops) && states[0] == [Shelf(map[k := v], {})]
    ensures ops == [Remove(k), Get(k, {}, Some(v))]
  {
    var full, loose := [Shelf(map[k := v], {k})], [Shelf(map[k := v], {})];
    states := [loose, loose, full];
    ops := [Remove(k), Get(k, {}, Some(v))];
    OneShelf(k, v);
    assert RemovedFromAll(loose, k) == loose;
    assert HitLayer(loose, {}, k) == 0 && Asked(loose, {}, k) == full;
    assert Step(states[0], ops[0], states[0 + 1]);
    assert Step(states[1], ops[1], states[1 + 1]);
  }
}

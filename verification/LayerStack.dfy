/** The layered cache over real layers: memory and disk caches in any order, each with its own
    clock-dependent view, disk reads failing, and directories that were used before. What holds
    of shelves holds of these. */
module LayerStack {
  import opened Common
  import opened Accounting
  import opened Layered
  import M = MemoryCache
  import D = DiskCache

  datatype LayerOp<K> =
    | LayerGet(key: K, fails: bool, result: Option<Bytes>)
    | LayerPut(key: K, value: Bytes)
    | LayerRemove(key: K)
    | LayerClear

  /** What the layered cache relies on: a write stores and may evict, nothing else appears. */
  ghost predicate LayerStep<K>(m: Shelf<K>, op: LayerOp<K>, n: Shelf<K>) {
    match op
    case LayerGet(k, fails, r) => (n, r) == ReadOne(m, k, fails)
    case LayerPut(k, v) => Fades(Stored(m, k, v), n)
    case LayerRemove(k) => n == Removed(m, k)
    case LayerClear => n == Shelf(map[], {})
  }

  // ----- The memory cache is such a shelf -----

  ghost function MemoryEntries<K>(s: M.Store<K>, now: nat): map<K, Bytes> {
    map k | k in s && !s[k].IsExpired(now) :: s[k].value
  }

  /** A memory cache lists what it holds and would return what has not expired. */
  ghost function MemoryShelf<K>(s: M.Store<K>, now: nat): Shelf<K> {
    Shelf(MemoryEntries(s, now), s.Keys)
  }

  function MemoryOp<K>(op: M.Op<K>): LayerOp<K>
    requires !op.Contains?
  {
    match op
    case Get(k, _, _, r) => LayerGet(k, false, r)
    case Put(k, v, _, _, _) => LayerPut(k, v)
    case Remove(k, _) => LayerRemove(k)
    case Clear => LayerClear
  }

  lemma MemoryGetReads<K(!new)>(c: M.Config, s: M.Store<K>, op: M.Op<K>, t: M.Store<K>, now: nat)
    requires M.Step(c, s, op, t) && op.Get? && op.now == now
    ensures LayerStep(MemoryShelf(s, now), MemoryOp(op), MemoryShelf(t, now))
  {
    assert MemoryEntries(t, now) == MemoryEntries(s, now);
    assert t.Keys == if op.key in MemoryEntries(s, now) then s.Keys + {op.key} else s.Keys - {op.key};
  }

  lemma MemoryPutStores<K(!new)>(c: M.Config, s: M.Store<K>, op: M.Op<K>, t: M.Store<K>, now: nat)
    requires M.Step(c, s, op, t) && op.Put? && op.now == now
    ensures LayerStep(MemoryShelf(s, now), MemoryOp(op), MemoryShelf(t, now))
  {
    var e := M.NewEntry(op.value, op.ttl, op.now, op.wall);
    var mid :| M.Evicts(c, s, mid, op.now) && t == mid[op.key := e];
    assert SubMap(mid, s);
    StoreFades(s, mid, op.key, e, now);
  }

  lemma StoreFades<K(!new)>(s: M.Store<K>, mid: M.Store<K>, k: K, e: M.Entry, now: nat)
    requires SubMap(mid, s)
    ensures Fades(Stored(MemoryShelf(s, now), k, e.value), MemoryShelf(mid[k := e], now))
  {
  }

  lemma MemoryRemoves<K(!new)>(c: M.Config, s: M.Store<K>, op: M.Op<K>, t: M.Store<K>, now: nat)
    requires M.Step(c, s, op, t) && (op.Remove? || op.Clear?)
    ensures LayerStep(MemoryShelf(s, now), MemoryOp(op), MemoryShelf(t, now))
  {
    if op.Remove? {
      assert MemoryEntries(t, now) == MemoryEntries(s, now) - {op.key};
      assert op.key !in s ==> s - {op.key} == s;
    }
  }

  lemma MemoryTimeFades<K(!new)>(s: M.Store<K>, now: nat, later: nat)
    requires now <= later
    ensures Fades(MemoryShelf(s, now), MemoryShelf(s, later))
  {
  }

  /** The memory cache is such a layer, and its reads never fail. */
  lemma MemoryCacheIsALayer<K(!new)>(c: M.Config, s: M.Store<K>, op: M.Op<K>, t: M.Store<K>, now: nat)
    requires M.Step(c, s, op, t) && !op.Contains?
    requires op.Get? || op.Put? ==> op.now == now
    ensures LayerStep(MemoryShelf(s, now), MemoryOp(op), MemoryShelf(t, now))
  {
    match op
    case Get(_, _, _, _) => MemoryGetReads(c, s, op, t, now);
    case Put(_, _, _, _, _) => MemoryPutStores(c, s, op, t, now);
    case Remove(_, _) => MemoryRemoves(c, s, op, t, now);
    case Clear => MemoryRemoves(c, s, op, t, now);
  }

  // ----- The disk cache is such a shelf -----

  ghost predicate Owns<K>(c: D.Config<K>, k: K, p: D.Path) {
    c.good(k) && D.FilePath(c, k) == p
  }

  ghost function KeyFor<K(!new)>(c: D.Config<K>, p: D.Path): K
    requires exists k :: Owns(c, k, p)
  {
    var k :| Owns(c, k, p);
    k
  }

  ghost predicate Unlapsed<K>(d: D.Disk<K>, k: K, now: nat) {
    k in d.index ==> !d.index[k].IsExpired(now)
  }

  /** Every key's file is returned, indexed or not, unless the index says it has expired. */
  ghost function DiskEntries<K(!new)>(c: D.Config<K>, d: D.Disk<K>, now: nat): map<K, Bytes> {
    map p | p in d.files && (exists k :: Owns(c, k, p)) && Unlapsed(d, KeyFor(c, p), now) :: KeyFor(c, p) := d.files[p]
  }

  /** A disk cache lists its index. */
  ghost function DiskShelf<K(!new)>(c: D.Config<K>, d: D.Disk<K>, now: nat): Shelf<K> {
    Shelf(DiskEntries(c, d, now), d.index.Keys)
  }

  ghost predicate DiskAnswers<K>(c: D.Config<K>, d: D.Disk<K>, k: K, now: nat) {
    c.good(k) && D.FilePath(c, k) in d.files && Unlapsed(d, k, now)
  }

  lemma DiskEntryAt<K(!new)>(c: D.Config<K>, d: D.Disk<K>, k: K, now: nat)
    requires D.WellNamed(c)
    ensures k in DiskEntries(c, d, now) <==> DiskAnswers(c, d, k, now)
    ensures k in DiskEntries(c, d, now) ==> DiskEntries(c, d, now)[k] == d.files[D.FilePath(c, k)]
  {
    var p := D.FilePath(c, k);
    if c.good(k) {
      assert Owns(c, k, p) && Owns(c, KeyFor(c, p), p);
      D.FilesAreDistinct(c, k, KeyFor(c, p));
    }
  }

  ghost predicate SameAt<K>(c: D.Config<K>, d: D.Disk<K>, e: D.Disk<K>, j: K, now: nat) {
    && (DiskAnswers(c, d, j, now) <==> DiskAnswers(c, e, j, now))
    && (DiskAnswers(c, d, j, now) ==> d.files[D.FilePath(c, j)] == e.files[D.FilePath(c, j)])
  }

  lemma MapUpdate<K(!new), V>(a: map<K, V>, b: map<K, V>, k: K)
    requires forall j :: j != k ==> (j in a <==> j in b)
    requires forall j :: j != k && j in a ==> a[j] == b[j]
    ensures b == if k in b then a[k := b[k]] else a - {k}
  {
  }

  /** An operation on one key changes the answers for that key only. */
  lemma EntriesAfter<K(!new)>(c: D.Config<K>, d: D.Disk<K>, e: D.Disk<K>, k: K, now: nat)
    requires D.WellNamed(c) && forall j :: j != k ==> SameAt(c, d, e, j, now)
    ensures var a, b := DiskEntries(c, d, now), DiskEntries(c, e, now); b == if k in b then a[k := b[k]] else a - {k}
  {
    var a, b := DiskEntries(c, d, now), DiskEntries(c, e, now);
    forall j | j != k ensures (j in a <==> j in b) && (j in a ==> a[j] == b[j]) {
      assert SameAt(c, d, e, j, now);
      DiskEntryAt(c, d, j, now);
      DiskEntryAt(c, e, j, now);
    }
    MapUpdate(a, b, k);
  }

  function DiskOp<K>(op: D.Op<K>, answer: D.Answer): LayerOp<K>
    requires op.Get? || op.Put? || op.Remove? || op.Clear?
  {
    match op
    case Get(k, _, _, readable) => LayerGet(k, !readable || answer.Failed?, if answer.Bytes? then answer.value else None)
    case Put(k, v, _, _) => LayerPut(k, v)
    case Remove(k) => LayerRemove(k)
    case Clear => LayerClear
  }

  /** An operation of the disk cache that a layered cache uses, on a good key at a moment. */
  ghost predicate Usable<K>(c: D.Config<K>, op: D.Op<K>, now: nat) {
    match op
    case Get(k, t, _, _) => c.good(k) && t == now
    case Put(k, _, _, t) => c.good(k) && t == now
    case Remove(k) => c.good(k)
    case Clear => true
    case _ => false
  }

  ghost predicate Sane<K(!new)>(c: D.Config<K>, d: D.Disk<K>) {
    D.WellNamed(c) && D.Named(c, d.index)
  }

  lemma DiskGetSameAt<K(!new)>(c: D.Config<K>, d: D.Disk<K>, k: K, now: nat, born: nat, readable: bool, j: K)
    requires Sane(c, d) && c.good(k)
    ensures SameAt(c, d, D.AfterGet(c, d, k, now, born, readable).0, j, now)
  {
    if c.good(j) {
      D.FilesAreDistinct(c, j, k);
    }
  }

  /** A read, whether it hits, misses, adopts a file or fails, changes no answer. */
  lemma DiskGetKeepsEntries<K(!new)>(c: D.Config<K>, d: D.Disk<K>, k: K, now: nat, born: nat, readable: bool)
    requires Sane(c, d) && c.good(k)
    ensures DiskEntries(c, D.AfterGet(c, d, k, now, born, readable).0, now) == DiskEntries(c, d, now)
  {
    var e := D.AfterGet(c, d, k, now, born, readable).0;
    forall j ensures SameAt(c, d, e, j, now) {
      DiskGetSameAt(c, d, k, now, born, readable, j);
    }
    SameEntries(c, d, e, now);
  }

  lemma SameEntries<K(!new)>(c: D.Config<K>, d: D.Disk<K>, e: D.Disk<K>, now: nat)
    requires D.WellNamed(c) && forall j :: SameAt(c, d, e, j, now)
    ensures DiskEntries(c, e, now) == DiskEntries(c, d, now)
  {
    var a, b := DiskEntries(c, d, now), DiskEntries(c, e, now);
    forall j ensures (j in a <==> j in b) && (j in a ==> a[j] == b[j]) {
      assert SameAt(c, d, e, j, now);
      DiskEntryAt(c, d, j, now);
      DiskEntryAt(c, e, j, now);
    }
    SubMapsAreEqual(a, b);
  }

  lemma DiskGetReads<K(!new)>(c: D.Config<K>, d: D.Disk<K>, op: D.Op<K>, now: nat)
    requires Sane(c, d) && op.Get? && Usable(c, op, now)
    ensures var (e, answer) := D.Apply(c, d, op);
            LayerStep(DiskShelf(c, d, now), DiskOp(op, answer), DiskShelf(c, e, now))
  {
    DiskGetKeepsEntries(c, d, op.key, now, op.born, op.readable);
    DiskEntryAt(c, d, op.key, now);
    DiskGetLists(c, d, op.key, now, op.born, op.readable);
  }

  lemma DiskGetLists<K(!new)>(c: D.Config<K>, d: D.Disk<K>, k: K, now: nat, born: nat, readable: bool)
    requires Sane(c, d) && c.good(k)
    ensures var (e, answer) := D.AfterGet(c, d, k, now, born, readable);
            if readable && DiskAnswers(c, d, k, now)
            then answer == D.Answer.Bytes(Some(d.files[D.FilePath(c, k)])) && e.index.Keys == d.index.Keys + {k}
            else answer in {D.Answer.Bytes(None), D.Failed} && e.index.Keys == d.index.Keys - {k}
                 && (readable && answer.Bytes? ==> !DiskAnswers(c, d, k, now))
  {
  }

  lemma DiskPutStores<K(!new)>(c: D.Config<K>, d: D.Disk<K>, k: K, v: Bytes, ttl: nat, now: nat)
    requires Sane(c, d) && c.good(k)
    ensures Fades(Stored(DiskShelf(c, d, now), k, v), DiskShelf(c, D.AfterPut(c, d, k, v, ttl, now), now))
  {
    var e := D.AfterPut(c, d, k, v, ttl, now);
    forall j | j != k ensures SameAt(c, d, e, j, now) {
      if c.good(j) {
        D.FilesAreDistinct(c, j, k);
      }
    }
    EntriesAfter(c, d, e, k, now);
    DiskEntryAt(c, e, k, now);
  }

  lemma DiskRemoves<K(!new)>(c: D.Config<K>, d: D.Disk<K>, op: D.Op<K>, now: nat)
    requires Sane(c, d) && op.Remove? && Usable(c, op, now)
    ensures var (e, answer) := D.Apply(c, d, op);
            LayerStep(DiskShelf(c, d, now), DiskOp(op, answer), DiskShelf(c, e, now))
  {
    var k, e := op.key, D.Apply(c, d, op).0;
    if k in d.index {
      forall j | j != k ensures SameAt(c, d, e, j, now) {
        if c.good(j) {
          D.FilesAreDistinct(c, j, k);
        }
      }
      EntriesAfter(c, d, e, k, now);
      DiskEntryAt(c, e, k, now);
    }
  }

  lemma DiskTimeFades<K(!new)>(c: D.Config<K>, d: D.Disk<K>, now: nat, later: nat)
    requires D.WellNamed(c) && now <= later
    ensures Fades(DiskShelf(c, d, now), DiskShelf(c, d, later))
  {
    forall k | k in DiskEntries(c, d, later)
      ensures k in DiskEntries(c, d, now) && DiskEntries(c, d, later)[k] == DiskEntries(c, d, now)[k]
    {
      DiskEntryAt(c, d, k, later);
      DiskEntryAt(c, d, k, now);
    }
  }

  lemma DiskKeepsSane<K(!new)>(c: D.Config<K>, d: D.Disk<K>, op: D.Op<K>, now: nat)
    requires Sane(c, d) && Usable(c, op, now)
    ensures Sane(c, D.Apply(c, d, op).0)
  {
  }

  /** The disk cache is such a layer, on any directory, used ones included, whichever of its
      reads fail. */
  lemma DiskCacheIsALayer<K(!new)>(c: D.Config<K>, d: D.Disk<K>, op: D.Op<K>, now: nat)
    requires Sane(c, d) && Usable(c, op, now)
    ensures var (e, answer) := D.Apply(c, d, op);
            LayerStep(DiskShelf(c, d, now), DiskOp(op, answer), DiskShelf(c, e, now))
  {
    match op
    case Get(_, _, _, _) => DiskGetReads(c, d, op, now);
    case Put(k, v, ttl, _) => DiskPutStores(c, d, k, v, ttl, now);
    case Remove(_) => DiskRemoves(c, d, op, now);
    case Clear => NothingOnDisk(c, now);
  }

  lemma NothingOnDisk<K(!new)>(c: D.Config<K>, now: nat)
    ensures DiskShelf(c, D.Empty(), now) == Shelf(map[], {})
  {
    assert DiskEntries(c, D.Empty(), now) == map[];
  }

  // ----- Stacks of real layers -----

  datatype Layer<!K> =
    | Memory(mc: M.Config, store: M.Store<K>)
    | OnDisk(dc: D.Config<K>, disk: D.Disk<K>)

  ghost predicate Sound<K(!new)>(l: Layer<K>) {
    l.OnDisk? ==> Sane(l.dc, l.disk)
  }

  /** What the layer would return at a moment, and what it lists. */
  ghost function Visible<K(!new)>(l: Layer<K>, now: nat): Shelf<K> {
    match l
    case Memory(_, store) => MemoryShelf(store, now)
    case OnDisk(c, disk) => DiskShelf(c, disk, now)
  }

  ghost predicate MemoryDoes<K(!new)>(
    c: M.Config, s: M.Store<K>, now: nat, op: LayerOp<K>, t: M.Store<K>, m: M.Op<K>)
  {
    && M.Step(c, s, m, t) && !m.Contains? && MemoryOp(m) == op
    && (m.Get? || m.Put? ==> m.now == now)
  }

  ghost predicate DiskDoes<K(!new)>(
    c: D.Config<K>, d: D.Disk<K>, now: nat, op: LayerOp<K>, e: D.Disk<K>, m: D.Op<K>)
  {
    Usable(c, m, now) && e == D.Apply(c, d, m).0 && DiskOp(m, D.Apply(c, d, m).1) == op
  }

  /** One call of a real layer at a moment. */
  ghost predicate Does<K(!new)>(l: Layer<K>, now: nat, op: LayerOp<K>, n: Layer<K>) {
    match l
    case Memory(c, s) => n.Memory? && n.mc == c && exists m :: MemoryDoes(c, s, now, op, n.store, m)
    case OnDisk(c, d) => n.OnDisk? && n.dc == c && exists m :: DiskDoes(c, d, now, op, n.disk, m)
  }

  lemma DoesIsLayerStep<K(!new)>(l: Layer<K>, now: nat, op: LayerOp<K>, n: Layer<K>)
    requires Sound(l) && Does(l, now, op, n)
    ensures Sound(n) && LayerStep(Visible(l, now), op, Visible(n, now))
  {
    match l
    case Memory(c, s) =>
      var m :| MemoryDoes(c, s, now, op, n.store, m);
      MemoryCacheIsALayer(c, s, m, n.store, now);
    case OnDisk(c, d) =>
      var m :| DiskDoes(c, d, now, op, n.disk, m);
      DiskCacheIsALayer(c, d, m, now);
      DiskKeepsSane(c, d, m, now);
  }

  lemma TimeFades<K(!new)>(l: Layer<K>, now: nat, later: nat)
    requires Sound(l) && now <= later
    ensures Fades(Visible(l, now), Visible(l, later))
  {
    match l
    case Memory(_, s) => MemoryTimeFades(s, now, later);
    case OnDisk(c, d) => DiskTimeFades(c, d, now, later);
  }

  type Stack<!K> = seq<Layer<K>>

  ghost predicate AllSound<K(!new)>(s: Stack<K>) {
    forall i :: 0 <= i < |s| ==> Sound(s[i])
  }

  ghost function Seen<K(!new)>(s: Stack<K>, now: nat): Layers<K> {
    seq(|s|, i requires 0 <= i < |s| => Visible(s[i], now))
  }

  // ----- The operations of the layered cache on real layers -----

  /** The layers are asked in order until one answers; those in `failing` fail to. */
  ghost predicate Asks<K(!new)>(
    s: Stack<K>, now: nat, k: K, failing: set<nat>, result: Option<Bytes>, t: Stack<K>, i: nat)
  {
    && |t| == |s| && i <= |s|
    && (forall j :: 0 <= j < i ==> Does(s[j], now, LayerGet(k, j in failing, None), t[j]))
    && (if i < |s| then i !in failing && result.Some? && Does(s[i], now, LayerGet(k, false, result), t[i]) else result == None)
    && (forall j :: i < j < |s| ==> t[j] == s[j])
  }

  ghost predicate ChangesOne<K(!new)>(s: Stack<K>, now: nat, i: nat, op: LayerOp<K>, t: Stack<K>) {
    && i < |s| == |t| && Does(s[i], now, op, t[i])
    && (forall j :: 0 <= j < |s| && j != i ==> t[j] == s[j])
  }

  /** A read of the slower layer, then a write of what it returned to the faster one. */
  ghost predicate Copies<K(!new)>(
    s: Stack<K>, now: nat, k: K, from: nat, to: nat, fails: bool, mid: Stack<K>, r: Option<Bytes>, t: Stack<K>)
  {
    && ChangesOne(s, now, from, LayerGet(k, fails, r), mid)
    && (if r.Some? then ChangesOne(mid, now, to, LayerPut(k, r.value), t) else t == mid)
  }

  ghost predicate StackStep<K(!new)>(s: Stack<K>, now: nat, op: Op<K>, t: Stack<K>) {
    match op
    case Get(k, failing, result) => exists i :: Asks(s, now, k, failing, result, t, i)
    case ReadLayer(k, layer, fails, result) =>
      if layer < |s| then ChangesOne(s, now, layer, LayerGet(k, fails, result), t) else t == s && result == None
    case Put(k, v) => ChangesOne(s, now, 0, LayerPut(k, v), t)
    case PutToLayer(k, v, layer) => if layer < |s| then ChangesOne(s, now, layer, LayerPut(k, v), t) else t == s
    case Promote(k, from, to, fails) =>
      if from < |s| && to < from then exists mid, r :: Copies(s, now, k, from, to, fails, mid, r, t) else t == s
    case Remove(k) => |t| == |s| && forall j :: 0 <= j < |s| ==> Does(s[j], now, LayerRemove(k), t[j])
    case Clear => |t| == |s| && forall j :: 0 <= j < |s| ==> Does(s[j], now, LayerClear, t[j])
    case Fade => t == s
  }

  // ----- No call gets stuck -----

  ghost predicate Fits<K>(l: Layer<K>, k: K) {
    l.OnDisk? ==> l.dc.good(k)
  }

  ghost predicate AllFit<K>(s: Stack<K>, k: K) {
    forall i :: 0 <= i < |s| ==> Fits(s[i], k)
  }

  /** A layer answers every read, or fails to. */
  lemma ReadHappens<K(!new)>(l: Layer<K>, now: nat, k: K) returns (n: Layer<K>, fails: bool, r: Option<Bytes>)
    requires Fits(l, k)
    ensures Does(l, now, LayerGet(k, fails, r), n) && (fails ==> r == None)
    ensures n.Memory? == l.Memory? && Fits(n, k)
  {
    match l
    case Memory(c, s) =>
      fails := false;
      if k !in s {
        r, n := None, l;
      } else if s[k].IsExpired(now) {
        r, n := None, Memory(c, s - {k});
      } else {
        r, n := Some(s[k].value), Memory(c, s[k := s[k].Touch(now)]);
      }
      assert MemoryDoes(c, s, now, LayerGet(k, fails, r), n.store, M.Get(k, now, now, r));
    case OnDisk(c, d) =>
      var m := D.Get(k, now, now, true);
      var (e, answer) := D.Apply(c, d, m);
      fails, r, n := answer.Failed?, if answer.Bytes? then answer.value else None, OnDisk(c, e);
      assert DiskDoes(c, d, now, LayerGet(k, fails, r), e, m);
  }

  /** It carries out every write, removal and clear. */
  lemma ChangeHappens<K(!new)>(l: Layer<K>, now: nat, op: LayerOp<K>) returns (n: Layer<K>)
    requires !op.LayerGet? && (op.LayerClear? || Fits(l, op.key))
    ensures Does(l, now, op, n)
  {
    match l
    case Memory(c, s) =>
      var t, m := map[], M.Clear;
      if op.LayerPut? {
        m := M.Put(op.key, op.value, 0, now, now);
        t := M.PutHappens(c, s, op.key, op.value, 0, now, now);
      } else if op.LayerRemove? {
        t, m := s - {op.key}, M.Remove(op.key, op.key in s);
      }
      assert MemoryDoes(c, s, now, op, t, m);
      n := Memory(c, t);
    case OnDisk(c, d) =>
      var m := match op case LayerPut(k, v) => D.Put(k, v, 0, now) case LayerRemove(k) => D.Remove(k) case _ => D.Clear;
      assert DiskDoes(c, d, now, op, D.Apply(c, d, m).0, m);
      n := OnDisk(c, D.Apply(c, d, m).0);
  }

  lemma LookupHappens<K(!new)>(s: Stack<K>, now: nat, k: K) returns (failing: set<nat>, result: Option<Bytes>, t: Stack<K>)
    requires AllFit(s, k)
    ensures StackStep(s, now, Get(k, failing, result), t)
  {
    var i := 0;
    t, failing, result := s, {}, None;
    while i < |s|
      invariant i <= |s| == |t| && (forall j :: j in failing ==> j < i) && result == None
      invariant forall j :: 0 <= j < i ==> Does(s[j], now, LayerGet(k, j in failing, None), t[j])
      invariant forall j :: i <= j < |s| ==> t[j] == s[j]
    {
      var n, fails, r := ReadHappens(s[i], now, k);
      t := t[i := n];
      if r.Some? {
        result := r;
        assert Asks(s, now, k, failing, result, t, i);
        return;
      }
      failing := if fails then failing + {i} else failing;
      i := i + 1;
    }
    assert Asks(s, now, k, failing, result, t, |s|);
  }

  lemma SweepHappens<K(!new)>(s: Stack<K>, now: nat, op: LayerOp<K>) returns (t: Stack<K>)
    requires op.LayerClear? || (op.LayerRemove? && AllFit(s, op.key))
    ensures |t| == |s| && forall j :: 0 <= j < |s| ==> Does(s[j], now, op, t[j])
  {
    t := [];
    while |t| < |s|
      invariant |t| <= |s| && forall j :: 0 <= j < |t| ==> Does(s[j], now, op, t[j])
    {
      var n := ChangeHappens(s[|t|], now, op);
      t := t + [n];
    }
  }

  lemma PromotionHappens<K(!new)>(s: Stack<K>, now: nat, k: K, from: nat, to: nat) returns (fails: bool, t: Stack<K>)
    requires AllFit(s, k) && from < |s| && to < from
    ensures StackStep(s, now, Promote(k, from, to, fails), t)
  {
    var n, failed, r := ReadHappens(s[from], now, k);
    var mid := s[from := n];
    fails, t := failed, mid;
    if r.Some? {
      var m := ChangeHappens(mid[to], now, LayerPut(k, r.value));
      t := mid[to := m];
    }
    assert Copies(s, now, k, from, to, fails, mid, r, t);
  }

  /** The same call, whatever it came to. */
  ghost predicate SameCall<K>(a: Op<K>, b: Op<K>) {
    match a
    case Get(k, _, _) => b.Get? && b.key == k
    case ReadLayer(k, layer, _, _) => b.ReadLayer? && b.key == k && b.layer == layer
    case Promote(k, from, to, _) => b.Promote? && b.key == k && b.from == from && b.to == to
    case _ => a == b
  }

  /** On every stack of real layers every call comes to some result. */
  lemma EveryCallHappens<K(!new)>(s: Stack<K>, now: nat, call: Op<K>) returns (op: Op<K>, t: Stack<K>)
    requires s != [] && (!call.Clear? && !call.Fade? ==> AllFit(s, call.key))
    ensures SameCall(call, op) && StackStep(s, now, op, t)
  {
    op, t := call, s;
    match call
    case Get(k, _, _) =>
      var failing, result, u := LookupHappens(s, now, k);
      op, t := Get(k, failing, result), u;
    case ReadLayer(k, layer, _, _) =>
      op := ReadLayer(k, layer, false, None);
      if layer < |s| {
        var n, fails, r := ReadHappens(s[layer], now, k);
        op, t := ReadLayer(k, layer, fails, r), s[layer := n];
      }
    case Put(k, v) =>
      var n := ChangeHappens(s[0], now, LayerPut(k, v));
      t := s[0 := n];
    case PutToLayer(k, v, layer) =>
      if layer < |s| {
        var n := ChangeHappens(s[layer], now, LayerPut(k, v));
        t := s[layer := n];
      }
    case Promote(k, from, to, _) =>
      if from < |s| && to < from {
        var fails, u := PromotionHappens(s, now, k, from, to);
        op, t := Promote(k, from, to, fails), u;
      }
    case Remove(k) => t := SweepHappens(s, now, LayerRemove(k));
    case Clear => t := SweepHappens(s, now, LayerClear);
    case Fade =>
  }

  lemma ChangesOneSeen<K(!new)>(s: Stack<K>, now: nat, i: nat, op: LayerOp<K>, t: Stack<K>)
    requires AllSound(s) && ChangesOne(s, now, i, op, t)
    ensures AllSound(t) && LayerStep(Seen(s, now)[i], op, Seen(t, now)[i])
    ensures Seen(t, now) == Seen(s, now)[i := Seen(t, now)[i]]
  {
    DoesIsLayerStep(s[i], now, op, t[i]);
  }

  lemma AsksSeen<K(!new)>(s: Stack<K>, now: nat, k: K, failing: set<nat>, result: Option<Bytes>, t: Stack<K>, i: nat)
    requires AllSound(s) && Asks(s, now, k, failing, result, t, i)
    ensures AllSound(t) && Seen(t, now) == Asked(Seen(s, now), failing, k) && result == Lookup(Seen(s, now), failing, k)
  {
    forall j | 0 <= j < |s|
      ensures Sound(t[j])
      ensures j < i ==> LayerStep(Seen(s, now)[j], LayerGet(k, j in failing, None), Seen(t, now)[j])
      ensures j == i ==> LayerStep(Seen(s, now)[j], LayerGet(k, false, result), Seen(t, now)[j])
    {
      if j < i {
        DoesIsLayerStep(s[j], now, LayerGet(k, j in failing, None), t[j]);
      } else if j == i {
        DoesIsLayerStep(s[j], now, LayerGet(k, false, result), t[j]);
      }
    }
    AskedInOrder(Seen(s, now), failing, k, result, Seen(t, now), i);
  }

  lemma AskedInOrder<K>(v: Layers<K>, failing: set<nat>, k: K, result: Option<Bytes>, w: Layers<K>, i: nat)
    requires |w| == |v| && i <= |v|
    requires forall j :: 0 <= j < i ==> LayerStep(v[j], LayerGet(k, j in failing, None), w[j])
    requires i < |v| ==> i !in failing && result.Some? && LayerStep(v[i], LayerGet(k, false, result), w[i])
    requires i == |v| ==> result == None
    requires forall j :: i < j < |v| ==> w[j] == v[j]
    ensures w == Asked(v, failing, k) && result == Lookup(v, failing, k)
  {
    forall j | 0 <= j < i ensures j in failing || k !in v[j].entries {
      assert LayerStep(v[j], LayerGet(k, j in failing, None), w[j]);
    }
    assert HitLayer(v, failing, k) == i;
    forall j | 0 <= j < |v| ensures w[j] == Asked(v, failing, k)[j] {
      assert j < i ==> LayerStep(v[j], LayerGet(k, j in failing, None), w[j]);
    }
  }

  lemma PromoteSeen<K(!new)>(s: Stack<K>, now: nat, k: K, from: nat, to: nat, fails: bool, t: Stack<K>)
    requires AllSound(s) && StackStep(s, now, Promote(k, from, to, fails), t)
    ensures AllSound(t) && AllFade(Promoted(Seen(s, now), k, from, to, fails), Seen(t, now))
  {
    var v := Seen(s, now);
    AllFadeSelf(v);
    if from < |s| && to < from {
      var mid, r :| Copies(s, now, k, from, to, fails, mid, r, t);
      ChangesOneSeen(s, now, from, LayerGet(k, fails, r), mid);
      if r.Some? {
        ChangesOneSeen(mid, now, to, LayerPut(k, r.value), t);
      }
      forall i | 0 <= i < |s| ensures Fades(Promoted(v, k, from, to, fails)[i], Seen(t, now)[i]) {
        FadesSelf(Seen(t, now)[i]);
      }
    }
  }

  lemma FadesSelf<K>(m: Shelf<K>)
    ensures Fades(m, m)
  {
  }

  lemma AllFadeSelf<K>(s: Layers<K>)
    ensures AllFade(s, s)
  {
    forall i | 0 <= i < |s| ensures Fades(s[i], s[i]) {
      FadesSelf(s[i]);
    }
  }

  lemma RemoveSeen<K(!new)>(s: Stack<K>, now: nat, op: LayerOp<K>, t: Stack<K>)
    requires AllSound(s) && |t| == |s| && (op.LayerRemove? || op.LayerClear?)
    requires forall j :: 0 <= j < |s| ==> Does(s[j], now, op, t[j])
    ensures AllSound(t) && forall j :: 0 <= j < |s| ==> LayerStep(Seen(s, now)[j], op, Seen(t, now)[j])
  {
    forall j | 0 <= j < |s| ensures Sound(t[j]) && LayerStep(Visible(s[j], now), op, Visible(t[j], now)) {
      DoesIsLayerStep(s[j], now, op, t[j]);
    }
  }

  lemma StoreSeen<K(!new)>(s: Stack<K>, now: nat, i: nat, k: K, v: Bytes, t: Stack<K>)
    requires AllSound(s) && ChangesOne(s, now, i, LayerPut(k, v), t)
    ensures AllSound(t) && AllFade(Seen(s, now)[i := Stored(Seen(s, now)[i], k, v)], Seen(t, now))
  {
    ChangesOneSeen(s, now, i, LayerPut(k, v), t);
    forall j | 0 <= j < |s| && j != i ensures Fades(Seen(s, now)[j], Seen(t, now)[j]) {
      FadesSelf(Seen(s, now)[j]);
    }
  }

  /** Every operation on real layers is the abstract one on what is visible, except that
      eviction may make entries fade besides. */
  lemma StackStepIsStep<K(!new)>(s: Stack<K>, now: nat, op: Op<K>, t: Stack<K>) returns (mid: Layers<K>)
    requires AllSound(s) && StackStep(s, now, op, t)
    ensures AllSound(t) && Step(Seen(s, now), op, mid) && AllFade(mid, Seen(t, now))
  {
    var v := Seen(s, now);
    mid := Seen(t, now);
    AllFadeSelf(mid);
    match op
    case Get(k, failing, result) =>
      var i :| Asks(s, now, k, failing, result, t, i);
      AsksSeen(s, now, k, failing, result, t, i);
    case ReadLayer(k, layer, fails, result) =>
      if layer < |s| {
        ChangesOneSeen(s, now, layer, LayerGet(k, fails, result), t);
      }
    case Put(k, value) =>
      StoreSeen(s, now, 0, k, value, t);
      mid := v[0 := Stored(v[0], k, value)];
    case PutToLayer(k, value, layer) =>
      if layer < |s| {
        StoreSeen(s, now, layer, k, value, t);
        mid := v[layer := Stored(v[layer], k, value)];
      }
    case Promote(k, from, to, fails) =>
      PromoteSeen(s, now, k, from, to, fails, t);
      mid := Promoted(v, k, from, to, fails);
    case Remove(k) =>
      RemoveSeen(s, now, LayerRemove(k), t);
      assert mid == RemovedFromAll(v, k);
    case Clear =>
      RemoveSeen(s, now, LayerClear, t);
      assert mid == Emptied(|v|);
    case Fade =>
  }

  // ----- Every run of real layers -----

  ghost predicate StackRun<K(!new)>(states: seq<Stack<K>>, ops: seq<Op<K>>, clock: seq<nat>) {
    && |states| == |clock| == |ops| + 1 && AllSound(states[0])
    && (forall i :: 0 <= i < |ops| ==> StackStep(states[i], clock[i], ops[i], states[i + 1]))
    && (forall i :: 0 <= i < |ops| ==> clock[i] <= clock[i + 1])
  }

  ghost function Views<K(!new)>(states: seq<Stack<K>>, clock: seq<nat>): seq<Layers<K>>
    requires |states| == |clock|
  {
    seq(|states|, n requires 0 <= n < |states| => Seen(states[n], clock[n]))
  }

  lemma FadingHoldsStored<K>(s: Layers<K>, t: Layers<K>, k: K, stored: set<Bytes>)
    requires AllFade(s, t) && HoldsStored(s, k, stored)
    ensures HoldsStored(t, k, stored)
  {
    forall i | 0 <= i < |t| && k in t[i].entries ensures t[i].entries[k] in stored {
      assert Fades(s[i], t[i]);
    }
  }

  lemma StackFades<K(!new)>(s: Stack<K>, now: nat, later: nat)
    requires AllSound(s) && now <= later
    ensures AllFade(Seen(s, now), Seen(s, later))
  {
    forall i | 0 <= i < |s| ensures Fades(Seen(s, now)[i], Seen(s, later)[i]) {
      TimeFades(s[i], now, later);
    }
  }

  lemma {:induction false} StackHoldsStored<K(!new)>(
    states: seq<Stack<K>>, ops: seq<Op<K>>, clock: seq<nat>, n: nat, k: K)
    requires StackRun(states, ops, clock) && n <= |ops|
    ensures AllSound(states[n])
    ensures HoldsStored(Seen(states[n], clock[n]), k, StoredFor(Views(states, clock), ops, n, k))
  {
    if n > 0 {
      StackHoldsStored(states, ops, clock, n - 1, k);
      var s, op, t := states[n - 1], ops[n - 1], states[n - 1 + 1];
      var now, later := clock[n - 1], clock[n - 1 + 1];
      assert StackStep(s, now, op, t);
      var stored := StoredFor(Views(states, clock), ops, n - 1, k);
      var mid := StackStepIsStep(s, now, op, t);
      StepHoldsStored(Seen(s, now), op, mid, k, stored);
      FadingHoldsStored(mid, Seen(t, now), k, AfterOp(stored, Seen(s, now), op, k));
      StackFades(t, now, later);
      FadingHoldsStored(Seen(t, now), Seen(t, later), k, AfterOp(stored, Seen(s, now), op, k));
    }
  }

  /** In every run over memory and disk caches, with their evictions and expiries, with disk
      reads failing and from directories used before, a lookup returns only a value that was
      visible at the start or stored since, and not hidden or cleared since. */
  lemma StackGetReturnsStored<K(!new)>(states: seq<Stack<K>>, ops: seq<Op<K>>, clock: seq<nat>, n: nat)
    requires StackRun(states, ops, clock) && n < |ops| && ops[n].Get? && ops[n].result.Some?
    ensures ops[n].result.value in StoredFor(Views(states, clock), ops, n, ops[n].key)
  {
    var op := ops[n];
    StackHoldsStored(states, ops, clock, n, op.key);
    assert StackStep(states[n], clock[n], op, states[n + 1]);
    var i :| Asks(states[n], clock[n], op.key, op.failing, op.result, states[n + 1], i);
    AsksSeen(states[n], clock[n], op.key, op.failing, op.result, states[n + 1], i);
  }

  lemma FadingListsAll<K(!new)>(s: Layers<K>, t: Layers<K>)
    requires AllFade(s, t) && AllListed(s)
    ensures AllListed(t)
  {
    forall i | 0 <= i < |t| ensures t[i].entries.Keys <= t[i].listed {
      assert Fades(s[i], t[i]) && s[i].entries.Keys <= s[i].listed;
    }
  }

  /** From layers that list all they have, as new ones do, while no read fails, real layers
      list all they have, so that every removal hides its key. */
  lemma {:induction false} StackListsAll<K(!new)>(states: seq<Stack<K>>, ops: seq<Op<K>>, clock: seq<nat>, n: nat)
    requires StackRun(states, ops, clock) && n <= |ops| && AllListed(Seen(states[0], clock[0]))
    requires forall i :: 0 <= i < n ==> Reliable(ops[i])
    ensures AllSound(states[n]) && AllListed(Seen(states[n], clock[n]))
    ensures n < |ops| && ops[n].Remove? ==> Hides(Seen(states[n], clock[n]), ops[n].key)
  {
    if n > 0 {
      StackListsAll(states, ops, clock, n - 1);
      var s, op, t := states[n - 1], ops[n - 1], states[n - 1 + 1];
      var now, later := clock[n - 1], clock[n - 1 + 1];
      assert StackStep(s, now, op, t);
      var mid := StackStepIsStep(s, now, op, t);
      ReliableStepListsAll(Seen(s, now), op, mid);
      FadingListsAll(mid, Seen(t, now));
      StackFades(t, now, later);
      FadingListsAll(Seen(t, now), Seen(t, later));
    }
    ListedHides(Seen(states[n], clock[n]));
  }

  lemma ListedHides<K(!new)>(s: Layers<K>)
    requires AllListed(s)
    ensures forall k :: Hides(s, k)
  {
    forall k, i | 0 <= i < |s| && k in s[i].entries ensures k in s[i].listed {
      assert s[i].entries.Keys <= s[i].listed;
    }
  }

  /** On real layers, at any moment: a removal hides the key exactly when every disk layer
      indexes it, or has no file for it. */
  lemma StackRemoveHides<K(!new)>(s: Stack<K>, now: nat, k: K, t: Stack<K>)
    requires AllSound(s) && StackStep(s, now, Remove(k), t)
    requires forall i :: 0 <= i < |s| && s[i].OnDisk? ==> s[i].dc.good(k)
    ensures Lookup(Seen(t, now), {}, k) == None <==>
              forall i :: 0 <= i < |s| && s[i].OnDisk? ==> Known(s[i], k)
  {
    var v := Seen(s, now);
    RemoveSeen(s, now, LayerRemove(k), t);
    assert Seen(t, now) == RemovedFromAll(v, k);
    RemoveHidesKey(v, k);
    forall i | 0 <= i < |s| ensures (k in v[i].entries ==> k in v[i].listed) <==> (s[i].OnDisk? ==> Known(s[i], k)) {
      LayerHides(s[i], now, k);
    }
  }

  /** The disk layer indexes the key or has no file for it. */
  ghost predicate Known<K>(l: Layer<K>, k: K)
    requires l.OnDisk?
  {
    k in l.disk.index || D.FilePath(l.dc, k) !in l.disk.files
  }

  lemma LayerHides<K(!new)>(l: Layer<K>, now: nat, k: K)
    requires Sound(l) && (l.OnDisk? ==> l.dc.good(k))
    ensures (k in Visible(l, now).entries ==> k in Visible(l, now).listed) <==> (l.OnDisk? ==> Known(l, k))
  {
    if l.OnDisk? {
      DiskEntryAt(l.dc, l.disk, k, now);
    }
  }
}

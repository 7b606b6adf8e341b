/** The zero-copy buffer pool: buffers kept by power-of-two class, represented by capacity. */
module BufferPool {
  import Pools

  const MIN_POOLED: nat := 1024
  const MAX_POOLED: nat := 64 * 1024 * 1024
  const MAX_POOL_SIZE: nat := 32

  function DoubleUntil(p: nat, n: nat): nat
    requires p > 0
    decreases n - p
  {
    if p >= n then p else DoubleUntil(2 * p, n)
  }

  /** The smallest power of two that is at least `n`. */
  function NextPowerOfTwo(n: nat): nat {
    DoubleUntil(1, n)
  }

  ghost predicate IsPowerOfTwo(p: nat) {
    p == 1 || (p > 0 && p % 2 == 0 && IsPowerOfTwo(p / 2))
  }

  lemma {:induction false} DoubleUntilBounds(p: nat, n: nat)
    requires IsPowerOfTwo(p)
    ensures DoubleUntil(p, n) >= n && IsPowerOfTwo(DoubleUntil(p, n))
    ensures DoubleUntil(p, n) == p || DoubleUntil(p, n) < 2 * n
    decreases n - p
  {
    if p < n {
      DoubleUntilBounds(2 * p, n);
    }
  }

  /** Two sizes of one class differ by less than a factor of two. */
  lemma SameClass(a: nat, b: nat)
    requires NextPowerOfTwo(a) == NextPowerOfTwo(b) && a > 0
    ensures b < 2 * a && b <= NextPowerOfTwo(a)
  {
    DoubleUntilBounds(1, a);
    DoubleUntilBounds(1, b);
  }

  /** Topping up a pooled buffer of the request's class never grows it. */
  lemma TopUpDoesNothing(capacity: nat, size: nat, after: nat)
    requires NextPowerOfTwo(capacity) == NextPowerOfTwo(size) && capacity > 0 && Pools.TopsUp(capacity, size, after)
    ensures after == capacity && 2 * after > size
  {
    SameClass(capacity, size);
  }

  lemma {:induction false} PowersAreApart(q: nat, p: nat)
    requires IsPowerOfTwo(q) && IsPowerOfTwo(p) && q <= p < 2 * q
    ensures q == p
    decreases p
  {
    if p > 1 && q > 1 {
      PowersAreApart(q / 2, p / 2);
    }
  }

  /** A power of two is its own class. */
  lemma ClassOfPower(p: nat)
    requires IsPowerOfTwo(p)
    ensures NextPowerOfTwo(p) == p
  {
    DoubleUntilBounds(1, p);
    PowersAreApart(p, NextPowerOfTwo(p));
  }

  /** A pooled buffer serves every request of its class exactly when its capacity is the
      power of two itself. */
  lemma ReuseSuffices(capacity: nat)
    requires capacity > 0
    ensures NextPowerOfTwo(capacity) == capacity <==>
            forall size: nat, after: nat ::
              NextPowerOfTwo(size) == NextPowerOfTwo(capacity) && Pools.TopsUp(capacity, size, after) ==> after >= size
  {
    var p := NextPowerOfTwo(capacity);
    DoubleUntilBounds(1, capacity);
    ClassOfPower(p);
    if p == capacity {
      forall size: nat, after: nat | NextPowerOfTwo(size) == p && Pools.TopsUp(capacity, size, after) ensures after >= size {
        SameClass(capacity, size);
      }
    } else {
      assert p < 2 * capacity;
      assert Pools.TopsUp(capacity, p, capacity) && capacity < p;
    }
  }

  // ----- The pool -----

  function Queue(pools: map<nat, seq<nat>>, c: nat): seq<nat> {
    if c in pools then pools[c] else []
  }

  /** The queue after a buffer is offered: one out of range is dropped, and so is the one
      that would be the thirty-third. */
  function Offered(queue: seq<nat>, capacity: nat): seq<nat> {
    if MIN_POOLED <= capacity <= MAX_POOLED && |queue| < MAX_POOL_SIZE then queue + [capacity] else queue
  }

  ghost predicate QueueInv(c: nat, queue: seq<nat>) {
    && |queue| <= MAX_POOL_SIZE
    && forall i :: 0 <= i < |queue| ==> MIN_POOLED <= queue[i] <= MAX_POOLED && NextPowerOfTwo(queue[i]) == c
  }

  ghost predicate Inv(pools: map<nat, seq<nat>>) {
    forall c :: c in pools ==> QueueInv(c, pools[c])
  }

  datatype Op = Get(size: nat, capacity: nat) | Return(returned: nat) | Empty

  /** One operation, seen through the queues. */
  ghost predicate Step(pools: map<nat, seq<nat>>, op: Op, pools': map<nat, seq<nat>>) {
    match op
    case Get(size, capacity) =>
      var queue := Queue(pools, NextPowerOfTwo(size));
      if queue == [] then capacity == size && pools' == pools
      else
        && capacity == queue[|queue| - 1]
        && pools' == pools[NextPowerOfTwo(size) := queue[..|queue| - 1]]
    case Return(capacity) =>
      var c := NextPowerOfTwo(capacity);
      && Queue(pools', c) == Offered(Queue(pools, c), capacity)
      && forall d :: d != c ==> Queue(pools', d) == Queue(pools, d)
    case Empty => pools' == map[]
  }

  class ZeroCopyBufferPool {
    var pools: map<nat, seq<nat>>
    var allocations: nat
    var hits: nat
    var misses: nat

    ghost predicate Valid()
      reads this
    {
      Inv(pools) && allocations == hits + misses
    }

    constructor ()
      ensures Valid() && pools == map[] && allocations == 0
    {
      pools, allocations, hits, misses := map[], 0, 0, 0;
    }

    /** A hit hands out the pooled buffer at its own capacity: more than half of the size asked
        for, but not always all of it. */
    method GetBuffer(size: nat) returns (capacity: nat)
      requires Valid()
      modifies this
      ensures Valid() && Step(old(pools), Get(size, capacity), pools)
      ensures allocations == old(allocations) + 1
      ensures hits == old(hits) + if Queue(old(pools), NextPowerOfTwo(size)) == [] then 0 else 1
      ensures capacity >= size || 2 * capacity > size
    {
      allocations := allocations + 1;
      var c := NextPowerOfTwo(size);
      if c in pools && pools[c] != [] {
        var queue := pools[c];
        var last := queue[|queue| - 1];
        assert QueueInv(c, queue);
        pools := pools[c := queue[..|queue| - 1]];
        capacity := Pools.TopUp(last, size);
        TopUpDoesNothing(last, size, capacity);
        hits := hits + 1;
        return;
      }
      misses := misses + 1;
      capacity := size;
    }

    method ReturnBuffer(capacity: nat)
      requires Valid()
      modifies this`pools
      ensures Valid() && Step(old(pools), Return(capacity), pools)
    {
      var c := NextPowerOfTwo(capacity);
      assert QueueInv(c, Queue(pools, c));
      if MIN_POOLED <= capacity <= MAX_POOLED {
        pools := pools[c := Queue(pools, c) + [capacity]];
      }
      if c in pools && |pools[c]| > MAX_POOL_SIZE {
        pools := pools[c := pools[c][..MAX_POOL_SIZE]];
      }
      assert Queue(pools, c) == Offered(Queue(old(pools), c), capacity);
      assert forall d :: d != c ==> Queue(pools, d) == Queue(old(pools), d);
      assert forall d :: d in pools && d != c ==> QueueInv(d, old(pools)[d]);
    }

    method Clear()
      modifies this`pools
      ensures Step(old(pools), Empty, pools)
    {
      pools := map[];
    }
  }

  // ----- Whole runs -----

  ghost predicate Run(states: seq<map<nat, seq<nat>>>, ops: seq<Op>) {
    && |states| == |ops| + 1
    && states[0] == map[]
    && forall n :: 0 <= n < |ops| ==> Step(states[n], ops[n], states[n + 1])
  }

  ghost predicate AllPowers(pools: map<nat, seq<nat>>) {
    forall c, i :: c in pools && 0 <= i < |pools[c]| ==> pools[c][i] == c
  }

  ghost predicate ReturnsPowers(ops: seq<Op>) {
    forall n :: 0 <= n < |ops| && ops[n].Return? ==> NextPowerOfTwo(ops[n].returned) == ops[n].returned
  }

  lemma StepKeepsPowers(pools: map<nat, seq<nat>>, op: Op, pools': map<nat, seq<nat>>)
    requires AllPowers(pools) && Step(pools, op, pools')
    requires op.Return? ==> NextPowerOfTwo(op.returned) == op.returned
    ensures AllPowers(pools')
    ensures op.Get? ==> op.capacity >= op.size
  {
    if op.Get? {
      DoubleUntilBounds(1, op.size);
      assert forall c, i :: c in pools' && 0 <= i < |pools'[c]| ==> pools'[c][i] == pools[c][i];
    } else if op.Return? {
      forall c, i | c in pools' && 0 <= i < |pools'[c]| ensures pools'[c][i] == c {
        assert pools'[c] == Queue(pools', c);
        assert i < |Queue(pools, c)| ==> Queue(pools, c)[i] == c;
      }
    }
  }

  /** A run that returns only power-of-two capacities always receives what it asks for. */
  lemma {:induction false} RunSuffices(states: seq<map<nat, seq<nat>>>, ops: seq<Op>, n: nat)
    requires Run(states, ops) && ReturnsPowers(ops) && n <= |ops|
    ensures AllPowers(states[n])
    ensures forall i :: 0 <= i < n && ops[i].Get? ==> ops[i].capacity >= ops[i].size
  {
    if n > 0 {
      RunSuffices(states, ops, n - 1);
      assert Step(states[n - 1], ops[n - 1], states[n - 1 + 1]);
      StepKeepsPowers(states[n - 1], ops[n - 1], states[n]);
    }
  }

  /** The pool's own buffer falls short: allocated for one size of a class and returned, it is
      handed out unchanged for any larger one, say 1100 bytes for 2000. */
  lemma ReuseFallsShort(small: nat, large: nat, p: nat) returns (states: seq<map<nat, seq<nat>>>, ops: seq<Op>)
    requires IsPowerOfTwo(p) && MIN_POOLED <= small < large <= p < 2 * small && small <= MAX_POOLED
    ensures Run(states, ops) && ops == [Get(small, small), Return(small), Get(large, small)]
  {
    ClassOf(small, p);
    ClassOf(large, p);
    states := [map[], map[], map[p := [small]], map[p := []]];
    ops := [Get(small, small), Return(small), Get(large, small)];
    assert Queue(states[2], p) == [small];
    assert states[2][p := [small][..0]] == states[3];
    assert Step(states[0], ops[0], states[0 + 1]);
    assert Step(states[1], ops[1], states[1 + 1]);
    assert Step(states[2], ops[2], states[2 + 1]);
  }

  lemma ClassOf(n: nat, p: nat)
    requires IsPowerOfTwo(p) && n <= p < 2 * n
    ensures NextPowerOfTwo(n) == p
  {
    DoubleUntilBounds(1, n);
    var q := NextPowerOfTwo(n);
    if q < p {
      PowersAreApart(q, p);
    } else if p < q {
      PowersAreApart(p, q);
    }
  }
}

/** The buffer pools: size classes, the per-content-type pools and their statistics, and the
    thread-local pool. A buffer is represented by its capacity. */
module Pools {
  import opened Common

  datatype SizeClass = Small | Medium | Large | Huge

  function FromSize(size: nat): SizeClass {
    if size <= 16384 then Small
    else if size <= 262_144 then Medium
    else if size <= 8_388_608 then Large
    else Huge
  }

  function BufferSize(c: SizeClass): nat {
    match c
    case Small => 16 * 1024
    case Medium => 256 * 1024
    case Large => 8 * 1024 * 1024
    case Huge => 32 * 1024 * 1024
  }

  function MaxPool(c: SizeClass): nat {
    match c
    case Small => 64
    case Medium => 32
    case Large => 8
    case Huge => 2
  }

  datatype ContentType = Config | Encoding | Archive | Root | Install | Download | Blte | Generic

  const ALL_TYPES := [Config, Encoding, Archive, Root, Install, Download, Blte, Generic]

  function TypicalSize(kind: ContentType): nat {
    match kind
    case Config => 16 * 1024
    case Encoding => 16 * 1024 * 1024
    case Archive => 8 * 1024 * 1024
    case Root => 2 * 1024 * 1024
    case Install => 512 * 1024
    case Download => 256 * 1024
    case Blte => 1024 * 1024
    case Generic => 64 * 1024
  }

  function Max(a: nat, b: nat): nat {
    if a >= b then a else b
  }

  /** The first content type whose typical size falls in the class. */
  function FirstOfClass(types: seq<ContentType>, c: SizeClass): Option<ContentType> {
    if types == [] then None
    else if FromSize(TypicalSize(types[0])) == c then Some(types[0])
    else FirstOfClass(types[1..], c)
  }

  /** Where a returned buffer of the class ends up. */
  function HomeOf(c: SizeClass): ContentType {
    match c
    case Small => Config
    case Medium => Download
    case Large => Archive
    case Huge => Encoding
  }

  lemma HomeIsFirst(c: SizeClass)
    ensures FirstOfClass(ALL_TYPES, c) == Some(HomeOf(c))
  {
    var fromDownload := [Download, Blte, Generic];
    var fromRoot := [Root, Install] + fromDownload;
    var fromEncoding := [Encoding, Archive] + fromRoot;
    assert fromRoot[1..][1..] == fromDownload && fromEncoding[1..][1..] == fromRoot && ALL_TYPES[1..] == fromEncoding;
    assert FirstOfClass(fromDownload, Medium) == Some(Download);
    assert FirstOfClass(fromRoot, Medium) == Some(Download);
    assert FirstOfClass(fromEncoding, Medium) == Some(Download);
  }

  /** The guess made from the size alone about the content type of a returned buffer. */
  method LikelyType(c: SizeClass) returns (kind: ContentType)
    ensures kind == HomeOf(c)
  {
    var likely := FirstOfClass(ALL_TYPES, c);
    HomeIsFirst(c);
    kind := if likely.Some? then likely.value else Generic;
  }

  // ----- Reserving -----

  /** Reserving on a cleared buffer: enough capacity already is left alone; otherwise the
      buffer grows to at least what is needed, by an amount the allocator chooses. */
  ghost predicate Reserved(capacity: nat, needed: nat, after: nat) {
    if capacity >= needed then after == capacity else after >= needed
  }

  method Reserve(capacity: nat, needed: nat) returns (after: nat)
    ensures Reserved(capacity, needed, after)
  {
    after := capacity;
    if capacity < needed {
      var extra: nat :| extra >= 0;
      after := needed + extra;
    }
  }

  /** A capacity that fills its class: what a pool itself hands out. */
  predicate Shaped(capacity: nat) {
    FromSize(capacity) == Huge || capacity == BufferSize(FromSize(capacity))
  }

  /** Reusing a pooled buffer keeps its size class, however the allocator grows buffers,
      exactly when the buffer is shaped. */
  lemma ReuseKeepsClass(capacity: nat)
    ensures Shaped(capacity) <==>
            forall size: nat, after: nat ::
              FromSize(size) == FromSize(capacity) && Reserved(capacity, Max(size, BufferSize(FromSize(capacity))), after)
              ==> FromSize(after) == FromSize(capacity)
  {
    var c := FromSize(capacity);
    if !Shaped(capacity) {
      var grown := BufferSize(c) + 1;
      assert Reserved(capacity, Max(capacity, BufferSize(c)), grown) && FromSize(grown) != c;
    }
  }

  // ----- The pool per content type -----

  datatype Tally = Tally(allocations: nat, bytes: nat, reuses: nat, misses: nat)

  const ZERO := Tally(0, 0, 0, 0)

  function Counted(t: Tally, size: nat, reused: bool): Tally {
    Tally(t.allocations + 1, t.bytes + size,
          if reused then t.reuses + 1 else t.reuses,
          if reused then t.misses else t.misses + 1)
  }

  function Add(a: Tally, b: Tally): Tally {
    Tally(a.allocations + b.allocations, a.bytes + b.bytes, a.reuses + b.reuses, a.misses + b.misses)
  }

  /** One size class of one content type; `current` is the counter read without the lock. */
  datatype Pool = Pool(buffers: seq<nat>, current: nat, tally: Tally, peak: nat)

  datatype Slot = Slot(kind: ContentType, size: SizeClass)

  datatype State = State(pools: map<Slot, Pool>, byType: map<ContentType, Tally>, counter: nat)

  datatype Op =
    | Allocate(kind: ContentType, requested: nat, capacity: nat)  // `capacity` is the outcome
    | Deallocate(returned: nat)
    | Clear

  function TypeTally(byType: map<ContentType, Tally>, kind: ContentType): Tally {
    if kind in byType then byType[kind] else ZERO
  }

  function Optimal(kind: ContentType, requested: nat): nat {
    Max(requested, TypicalSize(kind))
  }

  function SlotFor(kind: ContentType, requested: nat): Slot {
    Slot(kind, FromSize(Optimal(kind, requested)))
  }

  function SlotBack(capacity: nat): Slot {
    Slot(HomeOf(FromSize(capacity)), FromSize(capacity))
  }

  ghost predicate Complete(pools: map<Slot, Pool>) {
    forall slot: Slot :: slot in pools
  }

  ghost predicate HandsOut(p: Pool, needed: nat, capacity: nat) {
    if p.buffers != [] then Reserved(p.buffers[0], needed, capacity) else capacity == needed
  }

  function Taken(p: Pool, size: nat): Pool {
    var tally := Counted(p.tally, size, p.buffers != []);
    if p.buffers == [] then p.(tally := tally)
    else p.(buffers := p.buffers[1..], current := if p.current > 0 then p.current - 1 else 0, tally := tally)
  }

  function Given(p: Pool, capacity: nat, limit: nat): Pool {
    if p.current < limit && |p.buffers| < limit
    then p.(buffers := p.buffers + [capacity], current := p.current + 1, peak := Max(p.peak, p.current + 1))
    else p
  }

  ghost predicate Step(s: State, op: Op, t: State)
    requires Complete(s.pools)
  {
    match op
    case Allocate(kind, requested, capacity) =>
      var slot, size := SlotFor(kind, requested), Optimal(kind, requested);
      var p := s.pools[slot];
      && HandsOut(p, Max(size, BufferSize(slot.size)), capacity)
      && t == State(s.pools[slot := Taken(p, size)],
                    s.byType[kind := Counted(TypeTally(s.byType, kind), size, p.current > 0)],
                    s.counter + 1)
    case Deallocate(capacity) =>
      var slot := SlotBack(capacity);
      t == s.(pools := s.pools[slot := Given(s.pools[slot], capacity, MaxPool(slot.size))])
    case Clear =>
      t == State(map slot | slot in s.pools :: s.pools[slot].(buffers := [], current := 0), map[], 0)
  }

  const NEW_POOL := Pool([], 0, ZERO, 0)

  class SizedMemoryPool {
    var pools: map<Slot, Pool>
    var byType: map<ContentType, Tally>
    var counter: nat

    ghost function Now(): State
      reads this
    {
      State(pools, byType, counter)
    }

    constructor ()
      ensures IsInitial(Now()) && Inv(Now())
    {
      AllSlotsAreAll();
      pools := map slot | slot in AllSlots() :: NEW_POOL;
      byType, counter := map[], 0;
    }

    method AllocateForType(kind: ContentType, requested: nat) returns (capacity: nat)
      requires Complete(pools)
      modifies this
      ensures Step(old(Now()), Allocate(kind, requested, capacity), Now())
      ensures capacity >= requested
    {
      var size := Optimal(kind, requested);
      var slot := Slot(kind, FromSize(size));
      var hadBuffers := pools[slot].current > 0;
      capacity := AllocateFrom(slot, size);
      byType := byType[kind := Counted(TypeTally(byType, kind), size, hadBuffers)];
      counter := counter + 1;
    }

    method AllocateFrom(slot: Slot, size: nat) returns (capacity: nat)
      requires slot in pools
      modifies this`pools
      ensures HandsOut(old(pools)[slot], Max(size, BufferSize(slot.size)), capacity)
      ensures pools == old(pools)[slot := Taken(old(pools)[slot], size)]
    {
      var p := pools[slot];
      capacity := Max(size, BufferSize(slot.size));
      if p.buffers != [] {
        capacity := Reserve(p.buffers[0], capacity);
        p := p.(buffers := p.buffers[1..], current := if p.current > 0 then p.current - 1 else 0,
                tally := Counted(p.tally, size, true));
      } else {
        p := p.(tally := Counted(p.tally, size, false));
      }
      pools := pools[slot := p];
    }

    method Return(capacity: nat)
      requires Complete(pools)
      modifies this`pools
      ensures Step(old(Now()), Deallocate(capacity), Now())
    {
      var c := FromSize(capacity);
      var kind := LikelyType(c);
      var slot := Slot(kind, c);
      var p := pools[slot];
      if p.current < MaxPool(c) {
        if |p.buffers| < MaxPool(c) {
          var larger := p.current + 1;
          p := p.(buffers := p.buffers + [capacity], current := larger, peak := Max(p.peak, larger));
        }
      }
      pools := pools[slot := p];
    }

    method ClearAll()
      requires Complete(pools)
      modifies this
      ensures Step(old(Now()), Clear, Now())
    {
      pools := map slot | slot in pools :: pools[slot].(buffers := [], current := 0);
      byType, counter := map[], 0;
    }
  }

  function AllSlots(): set<Slot> {
    set kind: ContentType, c: SizeClass | true :: Slot(kind, c)
  }

  lemma AllSlotsAreAll()
    ensures forall slot: Slot :: slot in AllSlots()
  {
    forall slot: Slot ensures slot in AllSlots() {
      assert slot == Slot(slot.kind, slot.size);
    }
  }

  ghost predicate IsInitial(s: State) {
    && (forall slot: Slot :: slot in s.pools && s.pools[slot] == NEW_POOL)
    && s.byType == map[] && s.counter == 0
  }

  // ----- What the steps mean in numbers -----

  const STANDARD: set<nat> := {16384, 262_144, 8_388_608, 33_554_432}

  /** The least standard size that is at least `n`, or `n` itself beyond them all. */
  ghost predicate RoundedUp(n: nat, capacity: nat) {
    && capacity >= n && (capacity in STANDARD || (capacity == n && n > 33_554_432))
    && forall x :: x in STANDARD && x >= n ==> capacity <= x
  }

  const TYPICAL: map<ContentType, nat> := map[
    Config := 16_384, Encoding := 16_777_216, Archive := 8_388_608, Root := 2_097_152,
    Install := 524_288, Download := 262_144, Blte := 1_048_576, Generic := 65_536]

  lemma TypicalIs(kind: ContentType, requested: nat)
    ensures kind in TYPICAL
    ensures Optimal(kind, requested) == if requested > TYPICAL[kind] then requested else TYPICAL[kind]
  {
  }

  /** A fresh buffer has the least standard size for the request, but no less than is typical
      for its type. */
  lemma FreshCapacity(s: State, op: Op, t: State)
    requires Complete(s.pools) && op.Allocate? && Step(s, op, t)
    requires s.pools[SlotFor(op.kind, op.requested)].buffers == []
    ensures op.kind in TYPICAL
    ensures RoundedUp(if op.requested > TYPICAL[op.kind] then op.requested else TYPICAL[op.kind], op.capacity)
  {
    TypicalIs(op.kind, op.requested);
  }

  /** Where a returned buffer goes, by its capacity, and how many are kept there. */
  function Destination(capacity: nat): (Slot, nat) {
    if capacity <= 16_384 then (Slot(Config, Small), 64)
    else if capacity <= 262_144 then (Slot(Download, Medium), 32)
    else if capacity <= 8_388_608 then (Slot(Archive, Large), 8)
    else (Slot(Encoding, Huge), 2)
  }

  lemma ReturnMeans(s: State, capacity: nat, t: State, other: Slot)
    requires Inv(s) && Step(s, Deallocate(capacity), t)
    ensures var (slot, limit) := Destination(capacity);
            && t.pools[slot].buffers ==
               (if |s.pools[slot].buffers| < limit then s.pools[slot].buffers + [capacity] else s.pools[slot].buffers)
            && (other != slot ==> t.pools[other] == s.pools[other])
  {
    assert SlotInv(SlotBack(capacity), s.pools[SlotBack(capacity)]);
  }

  /** What an allocation counts: one more, the bytes asked for or typical, and a reuse exactly
      if a buffer was waiting. */
  lemma AllocationCounts(s: State, op: Op, t: State)
    requires Inv(s) && op.Allocate? && Step(s, op, t)
    ensures op.kind in TYPICAL
    ensures var before, after := TypeTally(s.byType, op.kind), TypeTally(t.byType, op.kind);
            var waiting := s.pools[SlotFor(op.kind, op.requested)].buffers != [];
            && after.allocations == before.allocations + 1
            && after.bytes == before.bytes + (if op.requested > TYPICAL[op.kind] then op.requested else TYPICAL[op.kind])
            && after.reuses == before.reuses + (if waiting then 1 else 0)
            && after.misses == before.misses + (if waiting then 0 else 1)
  {
    TypicalIs(op.kind, op.requested);
    assert SlotInv(SlotFor(op.kind, op.requested), s.pools[SlotFor(op.kind, op.requested)]);
  }

  // ----- What every step keeps -----

  /** Only home slots hold buffers, each of the slot's class and no more than its limit; the
      lock-free counter is the queue length, and the recorded peak bounds it. */
  ghost predicate SlotInv(slot: Slot, p: Pool) {
    && p.current == |p.buffers| <= p.peak <= MaxPool(slot.size)
    && (p.buffers != [] ==> slot.kind == HomeOf(slot.size))
    && (forall i :: 0 <= i < |p.buffers| ==> FromSize(p.buffers[i]) == slot.size)
  }

  ghost predicate Inv(s: State) {
    Complete(s.pools) && forall slot :: slot in s.pools ==> SlotInv(slot, s.pools[slot])
  }

  lemma StepKeepsInv(s: State, op: Op, t: State)
    requires Inv(s) && Step(s, op, t)
    ensures Inv(t)
  {
    match op
    case Allocate(kind, requested, capacity) =>
      assert SlotInv(SlotFor(kind, requested), s.pools[SlotFor(kind, requested)]);
    case Deallocate(capacity) =>
      assert SlotInv(SlotBack(capacity), s.pools[SlotBack(capacity)]);
    case Clear =>
      forall slot: Slot ensures slot in t.pools && SlotInv(slot, t.pools[slot]) {
        assert SlotInv(slot, s.pools[slot]);
      }
  }

  function CountAt(s: State, slot: Slot): nat {
    if slot in s.pools then |s.pools[slot].buffers| else 0
  }

  /** All the buffers of one content type. */
  function Held(s: State, kind: ContentType): nat {
    CountAt(s, Slot(kind, Small)) + CountAt(s, Slot(kind, Medium)) + CountAt(s, Slot(kind, Large)) + CountAt(s, Slot(kind, Huge))
  }

  function HeldIn(s: State, kinds: seq<ContentType>): nat {
    if kinds == [] then 0 else Held(s, kinds[0]) + HeldIn(s, kinds[1..])
  }

  function Share(kind: ContentType): nat {
    match kind
    case Config => 64
    case Download => 32
    case Archive => 8
    case Encoding => 2
    case _ => 0
  }

  lemma CountBound(s: State, slot: Slot)
    requires Inv(s)
    ensures CountAt(s, slot) <= if slot.kind == HomeOf(slot.size) then MaxPool(slot.size) else 0
  {
    assert SlotInv(slot, s.pools[slot]);
  }

  lemma HeldBound(s: State, kind: ContentType)
    requires Inv(s)
    ensures Held(s, kind) <= Share(kind)
  {
    CountBound(s, Slot(kind, Small));
    CountBound(s, Slot(kind, Medium));
    CountBound(s, Slot(kind, Large));
    CountBound(s, Slot(kind, Huge));
  }

  function Shares(kinds: seq<ContentType>): nat {
    if kinds == [] then 0 else Share(kinds[0]) + Shares(kinds[1..])
  }

  lemma {:induction false} HeldInBound(s: State, kinds: seq<ContentType>)
    requires Inv(s)
    ensures HeldIn(s, kinds) <= Shares(kinds)
  {
    if kinds != [] {
      HeldBound(s, kinds[0]);
      HeldInBound(s, kinds[1..]);
    }
  }

  // ----- Whole runs -----

  ghost predicate Stepped(states: seq<State>, ops: seq<Op>, n: nat)
    requires n < |ops| && |states| == |ops| + 1
  {
    Complete(states[n].pools) && Step(states[n], ops[n], states[n + 1])
  }

  ghost predicate Run(states: seq<State>, ops: seq<Op>) {
    && |states| == |ops| + 1
    && IsInitial(states[0])
    && forall n :: 0 <= n < |ops| ==> Stepped(states, ops, n)
  }

  lemma {:induction false} RunKeepsInv(states: seq<State>, ops: seq<Op>, n: nat)
    requires Run(states, ops) && n <= |ops|
    ensures Inv(states[n])
  {
    if n > 0 {
      RunKeepsInv(states, ops, n - 1);
      assert Stepped(states, ops, n - 1);
      StepKeepsInv(states[n - 1], ops[n - 1], states[n]);
    }
  }

  /** Whatever buffers are returned, only four of the thirty-two slots ever hold any. */
  lemma RunUsesHomesOnly(states: seq<State>, ops: seq<Op>, n: nat, slot: Slot)
    requires Run(states, ops) && n <= |ops|
    requires slot in states[n].pools && states[n].pools[slot].buffers != []
    ensures slot in {Slot(Config, Small), Slot(Download, Medium), Slot(Archive, Large), Slot(Encoding, Huge)}
  {
    RunKeepsInv(states, ops, n);
    assert SlotInv(slot, states[n].pools[slot]);
  }

  /** All pools together never hold more than 106 buffers. */
  lemma RunBoundsPool(states: seq<State>, ops: seq<Op>, n: nat)
    requires Run(states, ops) && n <= |ops|
    ensures HeldIn(states[n], ALL_TYPES) <= 106
  {
    RunKeepsInv(states, ops, n);
    HeldInBound(states[n], ALL_TYPES);
    SharesOfAll();
  }

  lemma SharesOfAll()
    ensures Shares(ALL_TYPES) == 106
  {
  }

  ghost predicate HandedOut(ops: seq<Op>, n: nat, capacity: nat)
    requires n <= |ops|
  {
    exists i :: 0 <= i < n && ops[i].Allocate? && ops[i].capacity == capacity
  }

  /** Every buffer returned has a capacity some earlier allocation handed out. */
  ghost predicate Owned(ops: seq<Op>) {
    forall n :: 0 <= n < |ops| && ops[n].Deallocate? ==> HandedOut(ops, n, ops[n].returned)
  }

  ghost predicate PooledShaped(s: State) {
    forall slot, i :: slot in s.pools && 0 <= i < |s.pools[slot].buffers| ==> Shaped(s.pools[slot].buffers[i])
  }

  ghost predicate OutcomesShaped(ops: seq<Op>, n: nat)
    requires n <= |ops|
  {
    forall i :: 0 <= i < n && ops[i].Allocate? ==> Shaped(ops[i].capacity)
  }

  /** An allocation from shaped pools keeps the size class and is shaped itself. */
  lemma AllocationIsShaped(s: State, op: Op, t: State)
    requires Inv(s) && PooledShaped(s) && op.Allocate? && Step(s, op, t)
    ensures FromSize(op.capacity) == FromSize(Optimal(op.kind, op.requested)) && Shaped(op.capacity)
    ensures PooledShaped(t)
  {
    var slot := SlotFor(op.kind, op.requested);
    var p := s.pools[slot];
    assert SlotInv(slot, p);
    assert p.buffers != [] ==> Shaped(p.buffers[0]) && FromSize(p.buffers[0]) == slot.size;
    forall other, i | other in t.pools && 0 <= i < |t.pools[other].buffers| ensures Shaped(t.pools[other].buffers[i]) {
      assert t.pools[other].buffers[i] in s.pools[other].buffers;
    }
  }

  lemma ReturnKeepsShaped(s: State, op: Op, t: State)
    requires Complete(s.pools) && PooledShaped(s) && Step(s, op, t) && !op.Allocate?
    requires op.Deallocate? ==> Shaped(op.returned)
    ensures PooledShaped(t)
  {
  }

  lemma {:induction false} RunIsShaped(states: seq<State>, ops: seq<Op>, n: nat)
    requires Run(states, ops) && Owned(ops) && n <= |ops|
    ensures PooledShaped(states[n]) && OutcomesShaped(ops, n)
  {
    if n > 0 {
      RunIsShaped(states, ops, n - 1);
      RunKeepsInv(states, ops, n - 1);
      assert Stepped(states, ops, n - 1);
      if ops[n - 1].Allocate? {
        AllocationIsShaped(states[n - 1], ops[n - 1], states[n]);
      } else {
        assert ops[n - 1].Deallocate? ==> HandedOut(ops, n - 1, ops[n - 1].returned);
        ReturnKeepsShaped(states[n - 1], ops[n - 1], states[n]);
      }
    }
  }

  /** In a run that returns only what it was handed, each buffer has the capacity asked for
      and lies in the size class it was allocated from, so it returns to that class. */
  lemma RunKeepsClasses(states: seq<State>, ops: seq<Op>, n: nat)
    requires Run(states, ops) && Owned(ops) && n < |ops| && ops[n].Allocate?
    ensures ops[n].capacity >= ops[n].requested
    ensures FromSize(ops[n].capacity) == FromSize(Optimal(ops[n].kind, ops[n].requested))
    ensures SlotBack(ops[n].capacity).size == SlotFor(ops[n].kind, ops[n].requested).size
  {
    RunIsShaped(states, ops, n);
    RunKeepsInv(states, ops, n);
    assert Stepped(states, ops, n);
    AllocationIsShaped(states[n], ops[n], states[n + 1]);
  }

  /** A buffer the pools did not hand out can leave its class: one of 10000 bytes, returned to
      a new pool, may come back from a Config allocation as a Medium one. */
  lemma ForeignBufferLeavesClass() returns (states: seq<State>, ops: seq<Op>)
    ensures Run(states, ops) && ops == [Deallocate(10000), Allocate(Config, 1, 20000)]
    ensures FromSize(20000) != FromSize(Optimal(Config, 1))
  {
    AllSlotsAreAll();
    var slot := Slot(Config, Small);
    var s0 := State(map slot | slot in AllSlots() :: NEW_POOL, map[], 0);
    var s1 := s0.(pools := s0.pools[slot := Given(NEW_POOL, 10000, MaxPool(Small))]);
    var s2 := State(s1.pools[slot := Taken(s1.pools[slot], 16384)], map[Config := Counted(ZERO, 16384, true)], 1);
    states := [s0, s1, s2];
    ops := [Deallocate(10000), Allocate(Config, 1, 20000)];
    assert Stepped(states, ops, 0);
    assert s1.pools[slot].buffers == [10000];
    assert HandsOut(s1.pools[slot], 16384, 20000);
    assert Stepped(states, ops, 1);
  }

  // ----- Statistics -----

  ghost predicate Allocates(op: Op, kind: ContentType) {
    op.Allocate? && op.kind == kind
  }

  function TallyAt(s: State, slot: Slot): Tally {
    if slot in s.pools then s.pools[slot].tally else ZERO
  }

  const ALL_CLASSES := [Small, Medium, Large, Huge]

  function TallyOver(s: State, kind: ContentType, classes: seq<SizeClass>): Tally {
    if classes == [] then ZERO else Add(TallyAt(s, Slot(kind, classes[0])), TallyOver(s, kind, classes[1..]))
  }

  /** What the four inner pools of a content type have counted. */
  function Inner(s: State, kind: ContentType): Tally {
    TallyOver(s, kind, ALL_CLASSES)
  }

  lemma StepCountsAt(s: State, op: Op, t: State, slot: Slot)
    requires Complete(s.pools) && Step(s, op, t)
    ensures TallyAt(t, slot) ==
            if op.Allocate? && slot == SlotFor(op.kind, op.requested)
            then Counted(TallyAt(s, slot), Optimal(op.kind, op.requested), s.pools[slot].buffers != [])
            else TallyAt(s, slot)
  {
  }

  /** What one step does to the inner counts and to the statistics of a type. */
  ghost predicate Tracks(op: Op, kind: ContentType, inner: Tally, inner': Tally, stats: Tally, stats': Tally) {
    if Allocates(op, kind) then
      exists reused ::
        && inner' == Counted(inner, Optimal(kind, op.requested), reused)
        && stats' == Counted(stats, Optimal(kind, op.requested), reused)
    else inner' == inner && stats' == if op.Clear? then ZERO else stats
  }

  lemma AddCounted(a: Tally, b: Tally, size: nat, reused: bool)
    ensures Counted(Add(a, b), size, reused) == Add(Counted(a, size, reused), b) == Add(a, Counted(b, size, reused))
  {
  }

  lemma {:induction false} StepCountsOver(s: State, op: Op, t: State, kind: ContentType, classes: seq<SizeClass>)
    requires Complete(s.pools) && Step(s, op, t)
    requires forall i, j :: 0 <= i < j < |classes| ==> classes[i] != classes[j]
    ensures TallyOver(t, kind, classes) ==
            if Allocates(op, kind) && SlotFor(kind, op.requested).size in classes
            then Counted(TallyOver(s, kind, classes), Optimal(kind, op.requested), s.pools[SlotFor(kind, op.requested)].buffers != [])
            else TallyOver(s, kind, classes)
  {
    if classes != [] {
      StepCountsOver(s, op, t, kind, classes[1..]);
      StepCountsAt(s, op, t, Slot(kind, classes[0]));
      if Allocates(op, kind) {
        AddCounted(TallyAt(s, Slot(kind, classes[0])), TallyOver(s, kind, classes[1..]),
                   Optimal(kind, op.requested), s.pools[SlotFor(kind, op.requested)].buffers != []);
      }
    }
  }

  lemma StepCountsType(s: State, op: Op, t: State, kind: ContentType)
    requires Inv(s) && Step(s, op, t)
    ensures TypeTally(t.byType, kind) ==
            if Allocates(op, kind)
            then Counted(TypeTally(s.byType, kind), Optimal(kind, op.requested), s.pools[SlotFor(kind, op.requested)].buffers != [])
            else if op.Clear? then ZERO
            else TypeTally(s.byType, kind)
  {
    if Allocates(op, kind) {
      assert SlotInv(SlotFor(kind, op.requested), s.pools[SlotFor(kind, op.requested)]);
    }
  }

  /** The inner counts and the statistics of a type, followed along a run. */
  ghost predicate Ledger(ops: seq<Op>, kind: ContentType, inner: seq<Tally>, stats: seq<Tally>) {
    && |inner| == |stats| == |ops| + 1
    && inner[0] == stats[0] == ZERO
    && forall n :: 0 <= n < |ops| ==> Tracks(ops[n], kind, inner[n], inner[n + 1], stats[n], stats[n + 1])
  }

  lemma StepTracks(s: State, op: Op, t: State, kind: ContentType)
    requires Inv(s) && Step(s, op, t)
    ensures Tracks(op, kind, Inner(s, kind), Inner(t, kind), TypeTally(s.byType, kind), TypeTally(t.byType, kind))
  {
    StepCountsOver(s, op, t, kind, ALL_CLASSES);
    StepCountsType(s, op, t, kind);
  }

  lemma RunTracks(states: seq<State>, ops: seq<Op>, n: nat, kind: ContentType)
    requires Run(states, ops) && n < |ops|
    ensures Tracks(ops[n], kind, Inner(states[n], kind), Inner(states[n + 1], kind),
                   TypeTally(states[n].byType, kind), TypeTally(states[n + 1].byType, kind))
  {
    RunKeepsInv(states, ops, n);
    assert Stepped(states, ops, n);
    StepTracks(states[n], ops[n], states[n + 1], kind);
  }

  lemma RunHasLedger(states: seq<State>, ops: seq<Op>, kind: ContentType) returns (inner: seq<Tally>, stats: seq<Tally>)
    requires Run(states, ops)
    ensures Ledger(ops, kind, inner, stats)
    ensures forall n :: 0 <= n < |states| ==> inner[n] == Inner(states[n], kind) && stats[n] == TypeTally(states[n].byType, kind)
  {
    inner := seq(|states|, n requires 0 <= n < |states| => Inner(states[n], kind));
    stats := seq(|states|, n requires 0 <= n < |states| => TypeTally(states[n].byType, kind));
    forall n | 0 <= n < |ops| ensures Tracks(ops[n], kind, inner[n], inner[n + 1], stats[n], stats[n + 1]) {
      RunTracks(states, ops, n, kind);
    }
    InitialInner(states[0], kind, ALL_CLASSES);
  }

  lemma {:induction false} InitialInner(s: State, kind: ContentType, classes: seq<SizeClass>)
    requires IsInitial(s)
    ensures TallyOver(s, kind, classes) == ZERO
  {
    if classes != [] {
      InitialTally(s, Slot(kind, classes[0]));
      InitialInner(s, kind, classes[1..]);
    }
  }

  lemma InitialTally(s: State, slot: Slot)
    requires IsInitial(s)
    ensures TallyAt(s, slot) == ZERO
  {
  }

  /** What the inner pools had counted when the statistics were last cleared. */
  ghost function Forgotten(inner: seq<Tally>, ops: seq<Op>, n: nat): Tally
    requires |inner| == |ops| + 1 && n <= |ops|
  {
    if n == 0 then ZERO
    else if ops[n - 1].Clear? then inner[n - 1]
    else Forgotten(inner, ops, n - 1)
  }

  /** The inner pools count every allocation, the per-type statistics those since the last
      clear: reuses, misses, bytes and allocations alike. */
  lemma {:induction false} LedgerSplits(ops: seq<Op>, kind: ContentType, inner: seq<Tally>, stats: seq<Tally>, n: nat)
    requires Ledger(ops, kind, inner, stats) && n <= |ops|
    ensures inner[n] == Add(stats[n], Forgotten(inner, ops, n))
  {
    if n > 0 {
      LedgerSplits(ops, kind, inner, stats, n - 1);
      assert Tracks(ops[n - 1], kind, inner[n - 1], inner[n - 1 + 1], stats[n - 1], stats[n - 1 + 1]);
      if !ops[n - 1].Clear? {
        TracksSplit(ops[n - 1], kind, inner[n - 1], inner[n], stats[n - 1], stats[n], Forgotten(inner, ops, n - 1));
      }
    }
  }

  lemma TracksSplit(
    op: Op, kind: ContentType, inner: Tally, inner': Tally, stats: Tally, stats': Tally, forgotten: Tally)
    requires Tracks(op, kind, inner, inner', stats, stats') && !op.Clear? && inner == Add(stats, forgotten)
    ensures inner' == Add(stats', forgotten)
  {
    if Allocates(op, kind) {
      var size := Optimal(kind, op.requested);
      var reused :| inner' == Counted(inner, size, reused) && stats' == Counted(stats, size, reused);
      AddCounted(stats, forgotten, size, reused);
    }
  }

  lemma {:induction false} InnerCountsAll(ops: seq<Op>, kind: ContentType, inner: seq<Tally>, stats: seq<Tally>, n: nat)
    requires Ledger(ops, kind, inner, stats) && n <= |ops|
    ensures inner[n] == ZERO <==> forall i :: 0 <= i < n ==> !Allocates(ops[i], kind)
  {
    if n > 0 {
      InnerCountsAll(ops, kind, inner, stats, n - 1);
      assert Tracks(ops[n - 1], kind, inner[n - 1], inner[n - 1 + 1], stats[n - 1], stats[n - 1 + 1]);
    }
  }

  ghost predicate ClearedAfterUse(ops: seq<Op>, n: nat, kind: ContentType)
    requires n <= |ops|
  {
    exists i, j :: 0 <= i < j < n && Allocates(ops[i], kind) && ops[j].Clear?
  }

  lemma {:induction false} ForgottenIsZero(ops: seq<Op>, kind: ContentType, inner: seq<Tally>, stats: seq<Tally>, n: nat)
    requires Ledger(ops, kind, inner, stats) && n <= |ops|
    ensures Forgotten(inner, ops, n) == ZERO <==> !ClearedAfterUse(ops, n, kind)
  {
    if n > 0 {
      ForgottenIsZero(ops, kind, inner, stats, n - 1);
      InnerCountsAll(ops, kind, inner, stats, n - 1);
    }
  }

  /** The per-type statistics equal the inner pools' counts exactly when no clear has come
      after an allocation of that type. */
  lemma StatisticsAgree(states: seq<State>, ops: seq<Op>, n: nat, kind: ContentType)
    requires Run(states, ops) && n <= |ops|
    ensures TypeTally(states[n].byType, kind) == Inner(states[n], kind) <==> !ClearedAfterUse(ops, n, kind)
  {
    var inner, stats := RunHasLedger(states, ops, kind);
    LedgerSplits(ops, kind, inner, stats, n);
    ForgottenIsZero(ops, kind, inner, stats, n);
    OnlyZeroAddsNothing(stats[n], Forgotten(inner, ops, n));
  }

  /** One allocation, then a clear: the inner pool remembers it, the statistics do not. */
  lemma ClearForgetsAllocation() returns (states: seq<State>, ops: seq<Op>)
    ensures Run(states, ops) && ops == [Allocate(Config, 1, 16384), Clear]
    ensures TypeTally(states[2].byType, Config) != Inner(states[2], Config)
  {
    AllSlotsAreAll();
    var slot := Slot(Config, Small);
    var s0 := State(map slot | slot in AllSlots() :: NEW_POOL, map[], 0);
    var s1 := State(s0.pools[slot := Taken(NEW_POOL, 16384)], map[Config := Counted(ZERO, 16384, false)], 1);
    var s2 := State(map slot | slot in s1.pools :: s1.pools[slot].(buffers := [], current := 0), map[], 0);
    states := [s0, s1, s2];
    ops := [Allocate(Config, 1, 16384), Clear];
    assert Stepped(states, ops, 0);
    assert Stepped(states, ops, 1);
    assert Allocates(ops[0], Config) && ops[1].Clear? && ClearedAfterUse(ops, 2, Config);
    StatisticsAgree(states, ops, 2, Config);
  }

  lemma OnlyZeroAddsNothing(a: Tally, b: Tally)
    ensures a == Add(a, b) <==> b == ZERO
  {
  }

  // ----- The thread-local pool -----

  const LOCAL_LIMIT: nat := 8

  datatype Local = Local(small: seq<nat>, medium: seq<nat>)

  function QueueOf(l: Local, c: SizeClass): seq<nat> {
    match c
    case Small => l.small
    case Medium => l.medium
    case _ => []
  }

  function WithQueue(l: Local, c: SizeClass, queue: seq<nat>): Local {
    match c
    case Small => l.(small := queue)
    case Medium => l.(medium := queue)
    case _ => l
  }

  ghost predicate LocalInv(l: Local) {
    forall c :: |QueueOf(l, c)| <= LOCAL_LIMIT
                && forall i :: 0 <= i < |QueueOf(l, c)| ==> FromSize(QueueOf(l, c)[i]) == c
  }

  datatype LocalOp = Take(size: nat, capacity: nat) | Give(returned: nat) | Drain

  /** A reused buffer is asked to grow by the shortfall only, counted from its length; a
      returned one is kept while its queue has room, and large ones are never kept. */
  ghost predicate LocalStep(l: Local, op: LocalOp, m: Local) {
    match op
    case Take(size, capacity) =>
      var c := FromSize(size);
      var queue := QueueOf(l, c);
      if queue == [] then capacity == Max(size, BufferSize(c)) && m == l
      else TopsUp(queue[0], size, capacity) && m == WithQueue(l, c, queue[1..])
    case Give(capacity) =>
      var c := FromSize(capacity);
      m == if |QueueOf(l, c)| < LOCAL_LIMIT then WithQueue(l, c, QueueOf(l, c) + [capacity]) else l
    case Drain => m == Local([], [])
  }

  class ThreadLocalPool {
    var small: seq<nat>
    var medium: seq<nat>

    ghost function Now(): Local
      reads this
    {
      Local(small, medium)
    }

    constructor ()
      ensures LocalInv(Now()) && Now() == Local([], [])
    {
      small, medium := [], [];
    }

    method AllocateLocal(size: nat) returns (capacity: nat)
      requires LocalInv(Now())
      modifies this
      ensures LocalInv(Now()) && LocalStep(old(Now()), Take(size, capacity), Now())
    {
      var c := FromSize(size);
      capacity := Max(size, BufferSize(c));
      if c.Small? && small != [] {
        capacity := TopUp(small[0], size);
        small := small[1..];
      } else if c.Medium? && medium != [] {
        capacity := TopUp(medium[0], size);
        medium := medium[1..];
      }
      LocalStepKeeps(old(Now()), Take(size, capacity), Now());
    }

    method DeallocateLocal(capacity: nat)
      requires LocalInv(Now())
      modifies this
      ensures LocalInv(Now()) && LocalStep(old(Now()), Give(capacity), Now())
    {
      var c := FromSize(capacity);
      if c.Small? {
        if |small| < LOCAL_LIMIT {
          small := small + [capacity];
        }
      } else if c.Medium? {
        if |medium| < LOCAL_LIMIT {
          medium := medium + [capacity];
        }
      }
      LocalStepKeeps(old(Now()), Give(capacity), Now());
    }

    method ClearLocal()
      modifies this
      ensures LocalInv(Now()) && LocalStep(old(Now()), Drain, Now())
    {
      small, medium := [], [];
    }
  }

  lemma LocalStepKeeps(l: Local, op: LocalOp, m: Local)
    requires LocalInv(l) && LocalStep(l, op, m)
    ensures LocalInv(m)
  {
    assert |l.small| == |QueueOf(l, Small)| <= LOCAL_LIMIT && |l.medium| == |QueueOf(l, Medium)| <= LOCAL_LIMIT;
    forall c
      ensures |QueueOf(m, c)| <= LOCAL_LIMIT
      ensures forall i :: 0 <= i < |QueueOf(m, c)| ==> FromSize(QueueOf(m, c)[i]) == c
    {
      assert |QueueOf(l, c)| <= LOCAL_LIMIT && forall i :: 0 <= i < |QueueOf(l, c)| ==> FromSize(QueueOf(l, c)[i]) == c;
    }
  }

  /** Growing a cleared buffer by the difference between the size and its capacity. */
  ghost predicate TopsUp(capacity: nat, size: nat, after: nat) {
    if capacity < size then Reserved(capacity, size - capacity, after) else after == capacity
  }

  method TopUp(capacity: nat, size: nat) returns (after: nat)
    ensures TopsUp(capacity, size, after)
  {
    after := capacity;
    if capacity < size {
      after := Reserve(capacity, size - capacity);
    }
  }

  /** Topping up is certain to reach the size exactly when the buffer had it already. */
  lemma TopUpSuffices(capacity: nat, size: nat)
    ensures (forall after: nat :: TopsUp(capacity, size, after) ==> after >= size) <==> capacity >= size || capacity == 0
  {
    if capacity < size && capacity > 0 {
      var after := Max(capacity, size - capacity);
      assert TopsUp(capacity, size, after) && after < size;
    }
  }

  /** A pooled buffer serves every size of its class exactly when it fills the class. */
  lemma LocalReuseSuffices(capacity: nat)
    requires FromSize(capacity).Small? || FromSize(capacity).Medium?
    ensures capacity == BufferSize(FromSize(capacity)) || capacity == 0 <==>
            forall size: nat, after: nat :: FromSize(size) == FromSize(capacity) && TopsUp(capacity, size, after) ==> after >= size
  {
    var c := FromSize(capacity);
    var top := BufferSize(c);
    if capacity != top && capacity > 0 {
      var after := Max(capacity, top - capacity);
      assert FromSize(top) == c && TopsUp(capacity, top, after) && after < top;
    }
  }

  ghost predicate LocalRun(states: seq<Local>, ops: seq<LocalOp>) {
    && |states| == |ops| + 1 && states[0] == Local([], [])
    && forall n :: 0 <= n < |ops| ==> LocalStep(states[n], ops[n], states[n + 1])
  }

  /** A capacity that serves its whole class: it fills the class. */
  predicate Fills(capacity: nat) {
    capacity == BufferSize(FromSize(capacity))
  }

  ghost predicate PooledFill(l: Local) {
    && (forall i :: 0 <= i < |l.small| ==> Fills(l.small[i]) && FromSize(l.small[i]) == Small)
    && (forall i :: 0 <= i < |l.medium| ==> Fills(l.medium[i]) && FromSize(l.medium[i]) == Medium)
  }

  predicate LocalShaped(capacity: nat) {
    FromSize(capacity).Small? || FromSize(capacity).Medium? ==> Fills(capacity)
  }

  lemma LocalStepFills(l: Local, op: LocalOp, m: Local)
    requires PooledFill(l) && LocalStep(l, op, m) && (op.Give? ==> LocalShaped(op.returned))
    ensures PooledFill(m)
    ensures op.Take? ==> op.capacity >= op.size && LocalShaped(op.capacity)
  {
  }

  ghost predicate TakenBefore(ops: seq<LocalOp>, n: nat, capacity: nat)
    requires n <= |ops|
  {
    exists i :: 0 <= i < n && ops[i].Take? && ops[i].capacity == capacity
  }

  /** Every buffer returned fills its class, or has a capacity that was handed out before. */
  ghost predicate GivesBack(ops: seq<LocalOp>) {
    forall n :: 0 <= n < |ops| && ops[n].Give? ==> LocalShaped(ops[n].returned) || TakenBefore(ops, n, ops[n].returned)
  }

  /** In every run that returns only buffers it was handed, or such as fill their class, each
      request receives at least its size. */
  lemma {:induction false} LocalRunSuffices(states: seq<Local>, ops: seq<LocalOp>, n: nat)
    requires LocalRun(states, ops) && GivesBack(ops) && n <= |ops|
    ensures PooledFill(states[n])
    ensures forall i :: 0 <= i < n && ops[i].Take? ==> ops[i].capacity >= ops[i].size && LocalShaped(ops[i].capacity)
  {
    if n > 0 {
      LocalRunSuffices(states, ops, n - 1);
      assert LocalStep(states[n - 1], ops[n - 1], states[n - 1 + 1]);
      assert ops[n - 1].Give? ==> LocalShaped(ops[n - 1].returned);
      LocalStepFills(states[n - 1], ops[n - 1], states[n]);
    }
  }

  /** A buffer of 10000 bytes from elsewhere is handed out unchanged for 16000. */
  lemma LocalReuseFallsShort() returns (states: seq<Local>, ops: seq<LocalOp>)
    ensures LocalRun(states, ops) && ops == [Give(10000), Take(16000, 10000)]
  {
    states := [Local([], []), Local([10000], []), Local([], [])];
    ops := [Give(10000), Take(16000, 10000)];
    assert LocalStep(states[0], ops[0], states[0 + 1]);
    assert LocalStep(states[1], ops[1], states[1 + 1]);
  }
}

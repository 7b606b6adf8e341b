/** Vectorised search and comparison: block kernels with lane masks and a scalar tail,
    against "first occurrence" and a plain byte order. */
module Simd {
  import opened Common

  datatype Ordering = Less | Equal | Greater

  /** What the processor supports; the wider features imply nothing about the narrower. */
  datatype CpuFeatures = CpuFeatures(sse2: bool, sse41: bool, avx2: bool, avx512: bool) {
    predicate HasSimd() {
      sse2 || sse41 || avx2 || avx512
    }
  }

  // ----- Lane masks: one boolean for each byte of a block -----

  type Mask = seq<bool>

  /** Compare two blocks lane by lane. */
  function CmpEq(va: Bytes, vb: Bytes): Mask
    requires |va| == |vb|
  {
    seq(|va|, i requires 0 <= i < |va| => va[i] == vb[i])
  }

  /** Compare every lane of a block with one byte. */
  function CmpEqByte(v: Bytes, b: byte): Mask {
    seq(|v|, i requires 0 <= i < |v| => v[i] == b)
  }

  /** The number of trailing zeros of the complement: the first lane that is not set. */
  function FirstClear(mask: Mask): (r: nat)
    requires false in mask
    ensures r < |mask| && !mask[r]
    ensures forall i :: 0 <= i < r ==> mask[i]
  {
    if !mask[0] then 0 else 1 + FirstClear(mask[1..])
  }

  // ----- Byte order -----

  function CmpNat(a: nat, b: nat): Ordering {
    if a < b then Less else if a > b then Greater else Equal
  }

  /** Lexicographic comparison of slices. */
  function CmpSlices(a: Bytes, b: Bytes): Ordering {
    if a == [] then (if b == [] then Equal else Less)
    else if b == [] then Greater
    else if a[0] != b[0] then CmpNat(a[0], b[0])
    else CmpSlices(a[1..], b[1..])
  }

  /** The order the comparison promises: shorter first, then lexicographic. */
  function Order(a: Bytes, b: Bytes): Ordering {
    if |a| != |b| then CmpNat(|a|, |b|) else CmpSlices(a, b)
  }

  /** The first difference, if there is one, is in favour of the first slice. */
  ghost predicate SmallerAt(a: Bytes, b: Bytes, k: int) {
    0 <= k < |a| && k < |b| && a[..k] == b[..k] && a[k] < b[k]
  }

  /** What the lexicographic comparison means, for slices of one length. */
  lemma {:induction false} CmpSlicesMeans(a: Bytes, b: Bytes)
    requires |a| == |b|
    ensures CmpSlices(a, b) == Equal <==> a == b
    ensures CmpSlices(a, b) == Less <==> exists k :: SmallerAt(a, b, k)
    ensures CmpSlices(a, b) == Greater <==> exists k :: SmallerAt(b, a, k)
  {
    if a != [] {
      if a[0] != b[0] {
        assert SmallerAt(a, b, 0) || SmallerAt(b, a, 0);
      } else {
        CmpSlicesMeans(a[1..], b[1..]);
        SmallerShifts(a, b);
        SmallerShifts(b, a);
        assert a == b <==> a[1..] == b[1..];
      }
    }
  }

  lemma OfOneLength(a: Bytes, b: Bytes)
    ensures |a| == |b| ==> (CmpSlices(a, b) == Equal <==> a == b)
    ensures |a| == |b| ==> (CmpSlices(a, b) == Less <==> exists k :: SmallerAt(a, b, k))
  {
    if |a| == |b| {
      CmpSlicesMeans(a, b);
    }
  }

  lemma SmallerShifts(a: Bytes, b: Bytes)
    requires |a| == |b| > 0 && a[0] == b[0]
    ensures (exists k :: SmallerAt(a, b, k)) <==> exists k :: SmallerAt(a[1..], b[1..], k)
  {
    if k :| SmallerAt(a, b, k) {
      assert k > 0 && a[1..][..k - 1] == a[..k][1..] == b[..k][1..] == b[1..][..k - 1];
      assert SmallerAt(a[1..], b[1..], k - 1);
    }
    if k :| SmallerAt(a[1..], b[1..], k) {
      assert a[..k + 1] == [a[0]] + a[1..][..k] && b[..k + 1] == [b[0]] + b[1..][..k];
      assert SmallerAt(a, b, k + 1);
    }
  }

  /** The verdict at the first difference decides the slices. */
  lemma {:induction false} CmpSlicesAtDifference(a: Bytes, b: Bytes, k: nat)
    requires k < |a| && k < |b|
    requires a[..k] == b[..k]
    requires a[k] != b[k]
    ensures CmpSlices(a, b) == CmpNat(a[k], b[k])
  {
    if k > 0 {
      assert a[0] == a[..k][0] == b[..k][0] == b[0];
      assert a[1..][..k - 1] == a[..k][1..] == b[..k][1..] == b[1..][..k - 1];
      CmpSlicesAtDifference(a[1..], b[1..], k - 1);
    }
  }

  lemma {:induction false} CmpSlicesSkipsCommonPrefix(a: Bytes, b: Bytes, k: nat)
    requires k <= |a| && k <= |b|
    requires a[..k] == b[..k]
    ensures CmpSlices(a, b) == CmpSlices(a[k..], b[k..])
  {
    if k > 0 {
      assert a[0] == a[..k][0] == b[..k][0] == b[0];
      assert a[1..][..k - 1] == a[..k][1..] == b[..k][1..] == b[1..][..k - 1];
      CmpSlicesSkipsCommonPrefix(a[1..], b[1..], k - 1);
      assert a[1..][k - 1..] == a[k..] && b[1..][k - 1..] == b[k..];
    }
  }

  /** The AVX2 (32 lanes) and SSE2 (16 lanes) comparison kernels. */
  method MemcmpKernel(lanes: nat, a: Bytes, b: Bytes) returns (r: Ordering)
    requires lanes == 16 || lanes == 32
    ensures r == CmpSlices(a, b)
    ensures |a| == |b| ==> (r == Equal <==> a == b)
    ensures |a| == |b| ==> (r == Less <==> exists k :: SmallerAt(a, b, k))
  {
    var len := if |a| < |b| then |a| else |b|;
    var i := 0;
    while i + lanes <= len
      invariant 0 <= i <= len
      invariant a[..i] == b[..i]
    {
      var mask := CmpEq(a[i..i + lanes], b[i..i + lanes]);
      if false in mask {
        var pos := i + FirstClear(mask);
        assert a[..pos] == b[..pos] by {
          forall j | i <= j < pos ensures a[j] == b[j] {
            assert mask[j - i];
          }
        }
        CmpSlicesAtDifference(a, b, pos);
        OfOneLength(a, b);
        return CmpNat(a[pos], b[pos]);
      }
      forall j | i <= j < i + lanes ensures a[j] == b[j] {
        assert mask[j - i];
      }
      i := i + lanes;
    }
    CmpSlicesSkipsCommonPrefix(a, b, i);
    OfOneLength(a, b);
    r := CmpSlices(a[i..], b[i..]);
  }

  /** The dispatcher answers the same on every processor. */
  method VectorizedMemcmp(cpu: CpuFeatures, a: Bytes, b: Bytes) returns (r: Ordering)
    ensures r == Order(a, b)
    ensures r == Equal <==> a == b
    ensures r == Less <==> |a| < |b| || (|a| == |b| && exists k :: SmallerAt(a, b, k))
  {
    if |a| == |b| {
      CmpSlicesMeans(a, b);
    }
    if |a| != |b| {
      return CmpNat(|a|, |b|);
    }
    if cpu.avx2 {
      r := MemcmpKernel(32, a, b);
    } else if cpu.sse2 {
      r := MemcmpKernel(16, a, b);
    } else {
      r := CmpSlices(a, b);
    }
  }

  function Flip(o: Ordering): Ordering {
    match o case Less => Greater case Equal => Equal case Greater => Less
  }

  lemma {:induction false} CmpSlicesTotal(a: Bytes, b: Bytes)
    ensures CmpSlices(a, b) == Equal <==> a == b
    ensures CmpSlices(b, a) == Flip(CmpSlices(a, b))
  {
    if a != [] && b != [] {
      CmpSlicesTotal(a[1..], b[1..]);
      assert a == [a[0]] + a[1..] && b == [b[0]] + b[1..];
    }
  }

  lemma {:induction false} CmpSlicesTransitive(a: Bytes, b: Bytes, c: Bytes)
    requires CmpSlices(a, b) != Greater && CmpSlices(b, c) != Greater
    ensures CmpSlices(a, c) != Greater
  {
    if a != [] && b != [] && c != [] && a[0] == b[0] == c[0] {
      CmpSlicesTransitive(a[1..], b[1..], c[1..]);
    }
  }

  /** Length first, then lexicographic: a total order whose equality is equality of bytes. */
  lemma OrderIsTotal(a: Bytes, b: Bytes, c: Bytes)
    ensures Order(a, b) == Equal <==> a == b
    ensures Order(b, a) == Flip(Order(a, b))
    ensures Order(a, b) != Greater && Order(b, c) != Greater ==> Order(a, c) != Greater
  {
    CmpSlicesTotal(a, b);
    if Order(a, b) != Greater && Order(b, c) != Greater && |a| == |b| == |c| {
      CmpSlicesTransitive(a, b, c);
    }
  }

  // ----- Batched equality -----

  method MemEqualKernel(lanes: nat, a: Bytes, b: Bytes) returns (equal: bool)
    requires lanes == 16 || lanes == 32
    ensures equal <==> a == b
  {
    if |a| != |b| {
      return false;
    }
    equal := true;
    var len := |a|;
    var i := 0;
    while i + lanes <= len && equal
      invariant 0 <= i <= len
      invariant equal ==> a[..i] == b[..i]
      invariant !equal ==> a != b
    {
      var mask := CmpEq(a[i..i + lanes], b[i..i + lanes]);
      if false in mask {
        var k := FirstClear(mask);
        assert a[i + k] != b[i + k];
        equal := false;
      } else {
        forall j | i <= j < i + lanes ensures a[j] == b[j] {
          assert mask[j - i];
        }
      }
      i := i + lanes;
    }
    if equal {
      assert a == a[..i] + a[i..] && b == b[..i] + b[i..];
      if i < len {
        equal := a[i..] == b[i..];
      }
    }
  }

  /** One verdict for each pair, in order; a verdict is true exactly where the comparison
      says `Equal`. */
  method BatchMemEqual(cpu: CpuFeatures, pairs: seq<(Bytes, Bytes)>) returns (results: seq<bool>)
    ensures |results| == |pairs|
    ensures forall i :: 0 <= i < |pairs| ==> (results[i] <==> Order(pairs[i].0, pairs[i].1) == Equal)
  {
    results := [];
    for n := 0 to |pairs|
      invariant |results| == n
      invariant forall i :: 0 <= i < n ==> (results[i] <==> Order(pairs[i].0, pairs[i].1) == Equal)
    {
      var (a, b) := pairs[n];
      var equal: bool;
      if cpu.avx2 {
        equal := MemEqualKernel(32, a, b);
      } else if cpu.sse2 {
        equal := MemEqualKernel(16, a, b);
      } else {
        equal := a == b;
      }
      CmpSlicesTotal(a, b);
      results := results + [equal];
    }
  }

  // ----- Search -----

  /** The needle occurs in the haystack at position `p`. */
  predicate Occurs(haystack: Bytes, needle: Bytes, p: int) {
    0 <= p && p + |needle| <= |haystack| && haystack[p..p + |needle|] == needle
  }

  /** The least occurrence, or none when there is none. */
  ghost predicate IsFirst(haystack: Bytes, needle: Bytes, r: Option<nat>) {
    match r
    case Some(p) => Occurs(haystack, needle, p) && forall q :: 0 <= q < p ==> !Occurs(haystack, needle, q)
    case None => forall q :: !Occurs(haystack, needle, q)
  }

  lemma FirstIsUnique(haystack: Bytes, needle: Bytes, r: Option<nat>, s: Option<nat>)
    requires IsFirst(haystack, needle, r) && IsFirst(haystack, needle, s)
    ensures r == s
  {
  }

  /** The scalar search from `start` on: the windows of the haystack, first match wins. */
  function WindowsPosition(haystack: Bytes, needle: Bytes, start: nat): (r: Option<nat>)
    ensures r.Some? ==> r.value >= start && Occurs(haystack, needle, r.value)
    ensures forall q :: start <= q < (if r.Some? then r.value else |haystack| + 1) ==> !Occurs(haystack, needle, q)
    decreases |haystack| - start
  {
    if start + |needle| > |haystack| then None
    else if haystack[start..start + |needle|] == needle then Some(start)
    else WindowsPosition(haystack, needle, start + 1)
  }

  /** The AVX2 (32 lanes) and SSE2 (16 lanes) search kernels: find lanes that hold the first
      byte of the needle, check each candidate, then search the tail by windows. */
  method MemmemKernel(lanes: nat, haystack: Bytes, needle: Bytes) returns (r: Option<nat>)
    requires lanes == 16 || lanes == 32
    requires needle != []
    ensures IsFirst(haystack, needle, r)
  {
    if |needle| > |haystack| {
      return None;
    }
    var firstByte := needle[0];
    var pos := 0;
    while pos + lanes <= |haystack|
      invariant 0 <= pos <= |haystack|
      invariant forall q :: 0 <= q < pos ==> !Occurs(haystack, needle, q)
    {
      var mask := CmpEqByte(haystack[pos..pos + lanes], firstByte);
      if true in mask {
        for bit := 0 to lanes
          invariant forall q :: 0 <= q < pos + bit ==> !Occurs(haystack, needle, q)
        {
          if mask[bit] {
            var candidate := pos + bit;
            if candidate + |needle| <= |haystack| && haystack[candidate..candidate + |needle|] == needle {
              return Some(candidate);
            }
          } else {
            FirstByteMatters(haystack, needle, pos + bit);
          }
        }
      } else {
        forall q | pos <= q < pos + lanes ensures !Occurs(haystack, needle, q) {
          assert !mask[q - pos];
          FirstByteMatters(haystack, needle, q);
        }
      }
      pos := pos + lanes;
    }
    r := WindowsPosition(haystack, needle, pos);
  }

  lemma FirstByteMatters(haystack: Bytes, needle: Bytes, p: nat)
    requires needle != [] && p < |haystack| && haystack[p] != needle[0]
    ensures !Occurs(haystack, needle, p)
  {
  }

  /** The dispatcher finds the first occurrence, and so gives on every processor the answer
      of the scalar window search. */
  method VectorizedMemmem(cpu: CpuFeatures, haystack: Bytes, needle: Bytes) returns (r: Option<nat>)
    ensures IsFirst(haystack, needle, r)
    ensures r == WindowsPosition(haystack, needle, 0)
  {
    if needle == [] {
      assert Occurs(haystack, needle, 0);
      return Some(0);
    }
    if |needle| > |haystack| {
      return None;
    }
    if cpu.avx2 && |needle| >= 4 {
      r := MemmemKernel(32, haystack, needle);
    } else if cpu.sse2 && |needle| >= 4 {
      r := MemmemKernel(16, haystack, needle);
    } else {
      r := WindowsPosition(haystack, needle, 0);
    }
    FirstIsUnique(haystack, needle, r, WindowsPosition(haystack, needle, 0));
  }

  // ----- Searching cached content for every occurrence -----

  datatype Outcome = Returns(positions: Option<seq<nat>>) | Panics

  /** Every position from `start` on, within the content, where the pattern occurs. */
  ghost function Occurrences(content: Bytes, pattern: Bytes, start: nat): seq<nat>
    decreases |content| - start
  {
    if start >= |content| then []
    else (if Occurs(content, pattern, start) then [start] else []) + Occurrences(content, pattern, start + 1)
  }

  ghost predicate Increasing(s: seq<nat>) {
    forall i, j :: 0 <= i < j < |s| ==> s[i] < s[j]
  }

  lemma {:induction false} OccurrencesContain(content: Bytes, pattern: Bytes, start: nat, p: nat)
    ensures p in Occurrences(content, pattern, start) <==> start <= p < |content| && Occurs(content, pattern, p)
    decreases |content| - start
  {
    if start < |content| {
      OccurrencesContain(content, pattern, start + 1, p);
    }
  }

  lemma {:induction false} OccurrencesIncrease(content: Bytes, pattern: Bytes, start: nat)
    ensures Increasing(Occurrences(content, pattern, start))
    decreases |content| - start
  {
    if start < |content| {
      OccurrencesIncrease(content, pattern, start + 1);
      var rest := Occurrences(content, pattern, start + 1);
      forall i | 0 <= i < |rest| ensures rest[i] > start {
        OccurrencesContain(content, pattern, start + 1, rest[i]);
      }
    }
  }

  /** Exactly the occurrences, overlapping ones included, in increasing order; an occurrence
      of a non-empty pattern always starts within the content. */
  lemma OccurrencesAreAll(content: Bytes, pattern: Bytes)
    ensures Increasing(Occurrences(content, pattern, 0))
    ensures forall p :: p in Occurrences(content, pattern, 0) <==> p < |content| && Occurs(content, pattern, p)
    ensures pattern != [] ==>
              forall p: nat :: p in Occurrences(content, pattern, 0) <==> Occurs(content, pattern, p)
  {
    OccurrencesIncrease(content, pattern, 0);
    forall p: nat
      ensures p in Occurrences(content, pattern, 0) <==> p < |content| && Occurs(content, pattern, p)
    {
      OccurrencesContain(content, pattern, 0, p);
    }
  }

  /** The scalar fallback: keep the windows equal to the pattern. */
  function WindowsFilter(content: Bytes, pattern: Bytes, i: nat): seq<nat>
    decreases |content| - i
  {
    if i + |pattern| > |content| then []
    else (if content[i..i + |pattern|] == pattern then [i] else []) + WindowsFilter(content, pattern, i + 1)
  }

  lemma {:induction false} WindowsFilterFindsAll(content: Bytes, pattern: Bytes, i: nat)
    requires pattern != []
    ensures WindowsFilter(content, pattern, i) == Occurrences(content, pattern, i)
    decreases |content| - i
  {
    if i < |content| {
      WindowsFilterFindsAll(content, pattern, i + 1);
    }
  }

  lemma {:induction false} OccurrencesSkip(content: Bytes, pattern: Bytes, start: nat, p: nat)
    requires start <= p
    requires forall q :: start <= q < p ==> !Occurs(content, pattern, q)
    ensures Occurrences(content, pattern, start) == Occurrences(content, pattern, p)
    decreases p - start
  {
    if start < p && start < |content| {
      OccurrencesSkip(content, pattern, start + 1, p);
    } else if start < p {
      assert Occurrences(content, pattern, start) == [] == Occurrences(content, pattern, p);
    }
  }

  lemma OccursInSuffix(content: Bytes, pattern: Bytes, start: nat, p: int)
    requires start <= |content|
    ensures p >= 0 ==> (Occurs(content[start..], pattern, p) <==> Occurs(content, pattern, start + p))
  {
    if p >= 0 && start + p + |pattern| <= |content| {
      assert content[start..][p..p + |pattern|] == content[start + p..start + p + |pattern|];
    }
  }

  /** No occurrence in the first `n` positions of a suffix: skip them. */
  lemma NoneBefore(content: Bytes, pattern: Bytes, start: nat, n: nat)
    requires start <= |content|
    requires forall q :: 0 <= q < n ==> !Occurs(content[start..], pattern, q)
    ensures Occurrences(content, pattern, start) == Occurrences(content, pattern, start + n)
  {
    forall q | start <= q < start + n ensures !Occurs(content, pattern, q) {
      OccursInSuffix(content, pattern, start, q - start);
    }
    OccurrencesSkip(content, pattern, start, start + n);
  }

  /** The first occurrence in a suffix is the next occurrence in the content. */
  lemma FirstInSuffix(content: Bytes, pattern: Bytes, start: nat, found: Option<nat>)
    requires start < |content|
    requires IsFirst(content[start..], pattern, found)
    ensures match found
            case Some(pos) =>
              && start + pos < |content|
              && Occurrences(content, pattern, start) == [start + pos] + Occurrences(content, pattern, start + pos + 1)
            case None =>
              Occurrences(content, pattern, start) == []
  {
    match found
    case Some(pos) =>
      NoneBefore(content, pattern, start, pos);
      OccursInSuffix(content, pattern, start, pos);
      if start + pos >= |content| {
        // Only an empty pattern matches at the end, and it would have matched at `start`.
        assert Occurs(content[start..], pattern, 0);
        assert false;
      }
    case None =>
      NoneBefore(content, pattern, start, |content| - start);
  }

  /** The vectorised search, repeated one byte past each hit. */
  method SearchLoop(cpu: CpuFeatures, content: Bytes, pattern: Bytes) returns (positions: seq<nat>)
    ensures positions == Occurrences(content, pattern, 0)
  {
    positions := [];
    var start := 0;
    while start < |content|
      invariant 0 <= start <= |content|
      invariant Occurrences(content, pattern, 0) == positions + Occurrences(content, pattern, start)
    {
      var found := VectorizedMemmem(cpu, content[start..], pattern);
      FirstInSuffix(content, pattern, start, found);
      match found
      case Some(pos) =>
        var absolutePos := start + pos;
        ghost var rest := Occurrences(content, pattern, absolutePos + 1);
        assert positions + ([absolutePos] + rest) == (positions + [absolutePos]) + rest;
        positions := positions + [absolutePos];
        start := absolutePos + 1;
      case None =>
        assert positions + [] == positions;
        return;
    }
    assert positions + [] == positions;
  }

  /** The answer is every occurrence on every processor. Only an empty pattern without
      vector support is different: windows of length zero panic. With vector support an
      empty pattern is found at each byte of the content, not at its end. */
  method SearchContent(cpu: CpuFeatures, cached: Option<Bytes>, pattern: Bytes) returns (r: Outcome)
    ensures r == Panics <==> cached.Some? && pattern == [] && !cpu.HasSimd()
    ensures cached.None? ==> r == Returns(None)
    ensures cached.Some? && r.Returns? ==>
              var all := Occurrences(cached.value, pattern, 0);
              r == Returns(if all == [] then None else Some(all))
  {
    if cached.None? {
      return Returns(None);
    }
    var content := cached.value;
    var positions: seq<nat>;
    if cpu.HasSimd() {
      positions := SearchLoop(cpu, content, pattern);
    } else {
      if pattern == [] {
        return Panics;
      }
      WindowsFilterFindsAll(content, pattern, 0);
      positions := WindowsFilter(content, pattern, 0);
    }
    r := Returns(if positions == [] then None else Some(positions));
  }
}

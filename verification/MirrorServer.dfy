/** The mirror server's data path: a bounded reader that retries transient read errors, the
    chunked copy to the client, and the whole-file cache with a byte budget. */
module MirrorServer {
  import opened Common
  import opened RangeHeader

  const READ_RETRIES := 3
  const CHUNK := 64 * 1024
  const MAX_CACHE_FILE_SIZE := 64 * 1024 * 1024
  const MAX_CACHE_TOTAL_BYTES := 512 * 1024 * 1024

  datatype ReadResult = Data(bytes: Bytes) | Raised

  function Min(a: int, b: int): int {
    if a < b then a else b
  }

  function AtLeastZero(n: int): nat {
    if n < 0 then 0 else n
  }

  /** The bytes that stand at `start`. */
  ghost predicate StandsAt(bytes: Bytes, content: Bytes, start: nat) {
    bytes == [] || (start + |bytes| <= |content| && bytes == content[start..start + |bytes|])
  }

  /** The next `n` bytes exist. */
  ghost predicate Within(content: Bytes, start: nat, n: int) {
    n <= 0 || start + n <= |content|
  }

  lemma StandsAtAppend(a: Bytes, b: Bytes, content: Bytes, start: nat)
    requires StandsAt(a, content, start) && StandsAt(b, content, start + |a|)
    ensures StandsAt(a + b, content, start)
  {
    if a == [] {
      assert a + b == b;
    } else if b == [] {
      assert a + b == a;
    } else {
      var m, n := start + |a|, start + |a| + |b|;
      assert content[start..m] + content[m..n] == content[start..n];
    }
  }

  /** An open file on a drive that may fail: a read may raise and leave the position
      anywhere, or come back short, as it does when the file was truncated. */
  class RawFile {
    const content: Bytes
    var pos: nat
    /** The drive has failed: a call raised, or a read came back short. */
    ghost var failed: bool

    constructor (content: Bytes)
      ensures this.content == content && pos == 0 && !failed
    {
      this.content, pos, failed := content, 0, false;
    }

    method Read(size: nat) returns (r: ReadResult)
      modifies this
      ensures r.Data? ==> |r.bytes| <= size && StandsAt(r.bytes, content, old(pos)) && pos == old(pos) + |r.bytes|
      ensures failed <==> old(failed) || r.Raised? || |r.bytes| < AtLeastZero(Min(size, |content| - old(pos)))
      ensures r.Data? ==> |r.bytes| <= AtLeastZero(Min(size, |content| - old(pos)))
    {
      var fails: bool := *;
      if fails {
        var anywhere: nat :| 0 <= anywhere;
        pos := anywhere;
        failed := true;
        return Raised;
      }
      var available: nat := AtLeastZero(Min(size, |content| - pos));
      var n: nat :| n <= available;
      r := Data(if n == 0 then [] else content[pos..pos + n]);
      failed := failed || n < available;
      pos := pos + n;
    }

    method Seek(target: nat) returns (ok: bool)
      modifies this
      ensures ok ==> pos == target
      ensures failed == (old(failed) || !ok)
    {
      ok := *;
      if ok {
        pos := target;
      } else {
        var anywhere: nat :| 0 <= anywhere;
        pos := anywhere;
        failed := true;
      }
    }
  }

  /** Limits reads to a byte count and knows where the next byte is. */
  class BoundedFile {
    const f: RawFile
    var remaining: int
    var pos: nat
    const fileSize: Option<nat>

    /** The file stands where this reader thinks it does. */
    ghost predicate InStep()
      reads this, f
    {
      f.pos == pos
    }

    constructor (f: RawFile, limit: int, start: nat, fileSize: Option<nat>)
      requires f.pos == start
      ensures InStep() && this.f == f && remaining == limit && pos == start && this.fileSize == fileSize
    {
      this.f, remaining, pos, this.fileSize := f, limit, start, fileSize;
    }

    /** Returns the next bytes of the file, or raises. When the file size is known a
        successful read is never short. */
    method Read(size: int) returns (r: ReadResult)
      requires InStep()
      modifies this, f
      ensures r.Data? ==>
                var n := |r.bytes|;
                && InStep() && remaining == old(remaining) - n && pos == old(pos) + n
                && n <= AtLeastZero(old(remaining)) && StandsAt(r.bytes, f.content, old(pos))
                && (fileSize.Some? && old(remaining) > 0 ==>
                      n == if size < 0 || size > old(remaining) then old(remaining) else size)
      ensures old(f.failed) ==> f.failed
      ensures !f.failed && Within(f.content, old(pos), old(remaining)) ==>
                && r.Data?
                && |r.bytes| == if size < 0 || size > old(remaining) then AtLeastZero(old(remaining)) else size
    {
      if remaining <= 0 {
        return Data([]);
      }
      var wanted := if size < 0 || size > remaining then remaining else size;
      var attempt := 0;
      while attempt < READ_RETRIES
        invariant 0 <= attempt <= READ_RETRIES
        invariant InStep() && remaining == old(remaining) && pos == old(pos)
        invariant (old(f.failed) || attempt > 0) ==> f.failed
      {
        var result := f.Read(wanted);
        match result
        case Data(data) =>
          remaining := remaining - |data|;
          pos := pos + |data|;
          if |data| < wanted && remaining > 0 && fileSize.Some? {
            // The file ends before the range does.
            return Raised;
          }
          return Data(data);
        case Raised =>
          // Restore the known position before trying again.
          var ok := f.Seek(pos);
          if !ok {
            return Raised;
          }
          attempt := attempt + 1;
      }
      r := Raised;
    }
  }

  /** A cached body: the slice `data[first:last + 1]`, read in chunks. */
  class BytesSource {
    const data: Bytes
    var pos: nat

    constructor (whole: Bytes, first: nat, last: int)
      requires last < |whole|
      ensures pos == 0 && data == (if first <= last then whole[first..last + 1] else [])
    {
      data := if first <= last then whole[first..last + 1] else [];
      pos := 0;
    }

    method Read(size: int) returns (chunk: Bytes)
      requires pos <= |data|
      modifies this
      ensures pos == old(pos) + |chunk| <= |data| && chunk == data[old(pos)..pos]
      ensures |chunk| == if size < 0 then |data| - old(pos) else Min(size, |data| - old(pos))
    {
      if pos >= |data| {
        return [];
      }
      chunk := if size >= 0 then data[pos..Min(pos + size, |data|)] else data[pos..];
      pos := pos + |chunk|;
    }
  }

  /** The client's end of the connection; a write may fail after sending some of the bytes. */
  class Client {
    var received: Bytes
    /** The connection has failed. */
    ghost var failed: bool

    constructor ()
      ensures received == [] && !failed
    {
      received, failed := [], false;
    }

    method Write(data: Bytes) returns (ok: bool)
      modifies this
      ensures ok ==> received == old(received) + data
      ensures !ok ==> exists n :: 0 <= n <= |data| && received == old(received) + data[..n]
      ensures failed == (old(failed) || !ok)
    {
      ok := *;
      if ok {
        received := received + data;
      } else {
        var n: nat :| n <= |data|;
        received := received + data[..n];
        failed := true;
      }
    }
  }

  lemma StandsAtPrefix(bytes: Bytes, n: nat, content: Bytes, start: nat)
    requires n <= |bytes| && StandsAt(bytes, content, start)
    ensures StandsAt(bytes[..n], content, start)
  {
    if n > 0 {
      assert content[start..start + |bytes|][..n] == content[start..start + n];
    }
  }

  /** Write one chunk; what the client holds continues to stand in the content. */
  method SendChunk(client: Client, chunk: Bytes, ghost content: Bytes, ghost start: nat) returns (ok: bool)
    requires StandsAt(client.received, content, start) && StandsAt(chunk, content, start + |client.received|)
    modifies client
    ensures StandsAt(client.received, content, start) && |client.received| <= |old(client.received)| + |chunk|
    ensures ok ==> client.received == old(client.received) + chunk
    ensures client.failed == (old(client.failed) || !ok)
  {
    ghost var before := client.received;
    ok := client.Write(chunk);
    StandsAtAppend(before, chunk, content, start);
    if !ok {
      ghost var n :| 0 <= n <= |chunk| && client.received == before + chunk[..n];
      StandsAtPrefix(chunk, n, content, start + |before|);
      StandsAtAppend(before, chunk[..n], content, start);
    }
  }

  /** Copy in chunks until a read returns nothing. Whatever fails, the client holds a prefix
      of the range; if nothing fails it holds all of it, no byte lost and none repeated. */
  method CopyFile(source: BoundedFile, client: Client) returns (done: bool)
    requires source.InStep()
    requires client.received == []
    modifies source, source.f, client
    ensures StandsAt(client.received, source.f.content, old(source.pos))
    ensures |client.received| <= AtLeastZero(old(source.remaining))
    ensures done && source.fileSize.Some? ==> |client.received| == AtLeastZero(old(source.remaining))
    ensures (old(source.f.failed) ==> source.f.failed) && (old(client.failed) ==> client.failed)
    ensures (!source.f.failed && !client.failed && Within(source.f.content, old(source.pos), old(source.remaining)))
            ==> done
  {
    while true
      invariant source.InStep()
      invariant StandsAt(client.received, source.f.content, old(source.pos))
      invariant source.pos == old(source.pos) + |client.received|
      invariant source.remaining == old(source.remaining) - |client.received|
      invariant |client.received| <= AtLeastZero(old(source.remaining))
      invariant (old(source.f.failed) ==> source.f.failed) && (old(client.failed) ==> client.failed)
      decreases source.remaining
    {
      var result := source.Read(CHUNK);
      if result.Raised? {
        return false;
      }
      if result.bytes == [] {
        return true;
      }
      var ok := SendChunk(client, result.bytes, source.f.content, old(source.pos));
      if !ok {
        return false;
      }
    }
  }

  method CopyBytes(source: BytesSource, client: Client) returns (done: bool)
    requires source.pos == 0 && client.received == []
    modifies source, client
    ensures client.received <= source.data
    ensures done ==> client.received == source.data
    ensures (old(client.failed) ==> client.failed) && (!client.failed ==> done)
  {
    while true
      invariant source.pos == |client.received| <= |source.data|
      invariant client.received == source.data[..source.pos]
      invariant old(client.failed) ==> client.failed
      decreases |source.data| - source.pos
    {
      var start := source.pos;
      var chunk := source.Read(CHUNK);
      if chunk == [] {
        return true;
      }
      assert source.data[..start] + chunk == source.data[..source.pos];
      var ok := client.Write(chunk);
      if !ok {
        ghost var n :| 0 <= n <= |chunk| && client.received == source.data[..start] + chunk[..n];
        assert client.received == source.data[..start + n];
        return false;
      }
    }
  }

  // ----- The whole-file cache: an ordered dictionary, least recently used first -----

  datatype Cached = Cached(path: string, data: Bytes)

  ghost function SumLengths(order: seq<Cached>): nat {
    if order == [] then 0 else |order[0].data| + SumLengths(order[1..])
  }

  ghost predicate DistinctPaths(order: seq<Cached>) {
    forall i, j :: 0 <= i < j < |order| ==> order[i].path != order[j].path
  }

  /** Where a path stands, or the length of the list when it is absent. */
  function IndexOf(order: seq<Cached>, path: string): (i: nat)
    ensures i <= |order|
    ensures i < |order| ==> order[i].path == path
    ensures forall j :: 0 <= j < i ==> order[j].path != path
  {
    if order == [] || order[0].path == path then 0 else 1 + IndexOf(order[1..], path)
  }

  /** Lookup moves the entry to the recently used end. */
  ghost function Touched(order: seq<Cached>, path: string): seq<Cached> {
    var i := IndexOf(order, path);
    if i == |order| then order else order[..i] + order[i + 1..] + [order[i]]
  }

  /** Assignment keeps the place of a path that is present and appends one that is not. */
  function Stored(order: seq<Cached>, path: string, data: Bytes): seq<Cached> {
    var i := IndexOf(order, path);
    if i == |order| then order + [Cached(path, data)] else order[i := Cached(path, data)]
  }

  /** The shortest sufficient run has left the least recently used end; the rest keeps its
      order. The last entry always stays. */
  ghost predicate TrimmedToBudget(before: seq<Cached>, after: seq<Cached>) {
    exists n :: 0 <= n <= |before| && after == before[n..] && ShortestRun(before, n)
  }

  ghost predicate ShortestRun(before: seq<Cached>, n: nat)
    requires n <= |before|
  {
    && (SumLengths(before[n..]) <= MAX_CACHE_TOTAL_BYTES || |before| - n <= 1)
    && (n > 0 ==> SumLengths(before[n - 1..]) > MAX_CACHE_TOTAL_BYTES && |before| - n >= 1)
  }

  lemma {:induction false} SumLengthsConcat(a: seq<Cached>, b: seq<Cached>)
    ensures SumLengths(a + b) == SumLengths(a) + SumLengths(b)
  {
    if a == [] {
      assert a + b == b;
    } else {
      assert (a + b)[1..] == a[1..] + b;
      SumLengthsConcat(a[1..], b);
    }
  }

  lemma SumLengthsSplit(order: seq<Cached>, i: nat)
    requires i < |order|
    ensures SumLengths(order) == SumLengths(order[..i]) + |order[i].data| + SumLengths(order[i + 1..])
  {
    assert order == order[..i] + ([order[i]] + order[i + 1..]);
    SumLengthsConcat(order[..i], [order[i]] + order[i + 1..]);
    assert ([order[i]] + order[i + 1..])[1..] == order[i + 1..];
  }

  lemma SumLengthsOfStored(order: seq<Cached>, path: string, data: Bytes)
    ensures var i := IndexOf(order, path);
            && SumLengths(Stored(order, path, data))
               == SumLengths(order) - (if i < |order| then |order[i].data| else 0) + |data|
            && (i < |order| ==> |order[i].data| <= SumLengths(order))
  {
    var i := IndexOf(order, path);
    if i == |order| {
      SumLengthsConcat(order, [Cached(path, data)]);
    } else {
      var stored := Stored(order, path, data);
      SumLengthsSplit(order, i);
      SumLengthsSplit(stored, i);
      assert stored[..i] == order[..i] && stored[i + 1..] == order[i + 1..];
    }
  }

  lemma StoredKeepsDistinct(order: seq<Cached>, path: string, data: Bytes)
    requires DistinctPaths(order)
    ensures DistinctPaths(Stored(order, path, data))
  {
  }

  lemma TouchedIsDistinct(order: seq<Cached>, path: string)
    requires DistinctPaths(order)
    ensures DistinctPaths(Touched(order, path))
  {
    var i, t := IndexOf(order, path), Touched(order, path);
    if i < |order| {
      assert forall j :: 0 <= j < |t| ==> t[j] == order[if j < i then j else if j < |t| - 1 then j + 1 else i];
    }
  }

  lemma TouchedKeepsEntries(order: seq<Cached>, path: string)
    ensures forall e :: e in Touched(order, path) ==> e in order
  {
  }

  lemma TouchedKeepsSum(order: seq<Cached>, path: string)
    ensures SumLengths(Touched(order, path)) == SumLengths(order)
  {
    var i := IndexOf(order, path);
    if i < |order| {
      var a, b, c := order[..i], order[i + 1..], [order[i]];
      SumLengthsSplit(order, i);
      SumLengthsConcat(a + b, c);
      SumLengthsConcat(a, b);
      assert SumLengths(c) == |c[0].data| + SumLengths(c[1..]);
    }
  }

  /** The entry at `i` is that of the path; it is last now and the others keep their order. */
  ghost predicate MovedToEnd(before: seq<Cached>, i: int, path: string, data: Bytes, after: seq<Cached>) {
    && 0 <= i < |before| && before[i] == Cached(path, data)
    && after == before[..i] + before[i + 1..] + [Cached(path, data)]
  }

  /** What an assignment does, before anything is evicted: a path that is present keeps its
      place, a new one comes last. */
  lemma StoredMeans(order: seq<Cached>, path: string, data: Bytes, i: nat)
    requires DistinctPaths(order)
    ensures i < |order| && order[i].path == path ==>
              Stored(order, path, data) == order[..i] + [Cached(path, data)] + order[i + 1..]
    ensures (forall e :: e in order ==> e.path != path) ==> Stored(order, path, data) == order + [Cached(path, data)]
  {
    if i < |order| && order[i].path == path {
      assert IndexOf(order, path) == i;
    }
    if forall e :: e in order ==> e.path != path {
      assert IndexOf(order, path) < |order| ==> order[IndexOf(order, path)] in order;
    }
  }

  class FileCache {
    var order: seq<Cached>
    var cacheBytes: nat

    /** What holds between calls: the counter is the sum of the stored lengths, it is within
        the budget, and only admitted files are stored. */
    ghost predicate Valid()
      reads this
    {
      && DistinctPaths(order)
      && cacheBytes == SumLengths(order) <= MAX_CACHE_TOTAL_BYTES
      && forall e :: e in order ==> |e.data| <= MAX_CACHE_FILE_SIZE
    }

    /** Every cached body is the content of its file. */
    ghost predicate Mirrors(disk: map<string, Bytes>)
      reads this
    {
      forall e :: e in order ==> e.path in disk && disk[e.path] == e.data
    }

    constructor ()
      ensures Valid() && order == []
    {
      order, cacheBytes := [], 0;
    }

    method CacheGet(path: string) returns (r: Option<Bytes>)
      requires Valid()
      modifies this
      ensures Valid() && order == Touched(old(order), path)
      ensures r.None? ==> order == old(order) && forall e :: e in order ==> e.path != path
      ensures r.Some? ==> exists i :: MovedToEnd(old(order), i, path, r.value, order)
    {
      var i := IndexOf(order, path);
      if i == |order| {
        return None;
      }
      TouchedIsDistinct(order, path);
      TouchedKeepsEntries(order, path);
      TouchedKeepsSum(order, path);
      r := Some(order[i].data);
      order := order[..i] + order[i + 1..] + [order[i]];
      assert MovedToEnd(old(order), i, path, r.value, order);
    }

    method CachePut(path: string, data: Bytes)
      requires Valid() && |data| <= MAX_CACHE_FILE_SIZE
      modifies this
      ensures Valid() && TrimmedToBudget(Stored(old(order), path, data), order)
    {
      var i := IndexOf(order, path);
      SumLengthsOfStored(order, path, data);
      StoredKeepsDistinct(order, path, data);
      if i < |order| {
        cacheBytes := cacheBytes - |order[i].data|;
      }
      order := Stored(order, path, data);
      cacheBytes := cacheBytes + |data|;
      Trim();
    }

    method Trim()
      requires DistinctPaths(order) && cacheBytes == SumLengths(order)
      requires forall e :: e in order ==> |e.data| <= MAX_CACHE_FILE_SIZE
      modifies this
      ensures Valid() && TrimmedToBudget(old(order), order)
    {
      ghost var n := 0;
      while cacheBytes > MAX_CACHE_TOTAL_BYTES && |order| > 1
        invariant 0 <= n <= |old(order)| && order == old(order)[n..]
        invariant cacheBytes == SumLengths(order)
        invariant n > 0 ==> SumLengths(old(order)[n - 1..]) > MAX_CACHE_TOTAL_BYTES && |order| >= 1
        decreases |order|
      {
        assert old(order)[n..][1..] == old(order)[n + 1..];
        cacheBytes := cacheBytes - |order[0].data|;
        order := order[1..];
        n := n + 1;
      }
      assert ShortestRun(old(order), n);
      if |order| == 1 {
        assert order[0] in old(order);
        assert SumLengths(order) == |order[0].data| + SumLengths(order[1..]);
      }
    }
  }

  /** A path that was not cached is cached after its put, whatever had to go. */
  lemma NewPathStays(order: seq<Cached>, path: string, data: Bytes, after: seq<Cached>)
    requires IndexOf(order, path) == |order| && |data| <= MAX_CACHE_FILE_SIZE
    requires TrimmedToBudget(Stored(order, path, data), after)
    ensures Cached(path, data) in after
  {
    var before := Stored(order, path, data);
    var n :| 0 <= n <= |before| && after == before[n..] && ShortestRun(before, n);
    assert after[|after| - 1] == Cached(path, data);
  }

  // ----- A whole request -----

  datatype Response = NotSatisfiable | Dropped | Sent(status: nat, contentLength: int, done: bool)

  ghost function RequestedRange(header: Option<string>, fileSize: nat): Option<Range> {
    if header.None? then Some(Range(0, fileSize - 1)) else ParseRange(header.value, fileSize)
  }

  ghost function Body(content: Bytes, r: Range): Bytes
    requires 0 <= r.first && r.last < |content|
  {
    if r.first <= r.last then content[r.first..r.last + 1] else []
  }

  ghost predicate Holds(order: seq<Cached>, path: string) {
    exists e :: e in order && e.path == path
  }

  method SendCached(data: Bytes, range: Range, client: Client) returns (done: bool)
    requires 0 <= range.first && range.last < |data| && client.received == []
    modifies client
    ensures client.received <= Body(data, range)
    ensures done ==> client.received == Body(data, range)
    ensures !client.failed ==> done
  {
    var source := new BytesSource(data, range.first, range.last);
    done := CopyBytes(source, client);
  }

  method SendFromDrive(f: RawFile, range: Range, client: Client) returns (done: bool)
    requires 0 <= range.first && range.last < |f.content| && client.received == []
    requires f.pos == range.first
    modifies f, client
    ensures client.received <= Body(f.content, range)
    ensures done ==> client.received == Body(f.content, range)
    ensures (old(f.failed) ==> f.failed) && (!f.failed && !client.failed ==> done)
  {
    var source := new BoundedFile(f, range.ContentLength(), range.first, Some(|f.content|));
    done := CopyFile(source, client);
    BodyOfStandsAt(client.received, f.content, range);
  }

  /** Choose the range of a request, as the headers state it. */
  method ChooseRange(header: Option<string>, fileSize: nat) returns (r: Option<Range>)
    ensures r == RequestedRange(header, fileSize)
    ensures r.Some? ==> 0 <= r.value.first && r.value.last < fileSize
  {
    if header.None? {
      return Some(Range(0, fileSize - 1));
    }
    r := ParseRange(header.value, fileSize);
    if r.Some? {
      AcceptedRangeIsWithinFile(header.value, fileSize);
    }
  }

  /** Deliver a range from the cache or from the drive; `ranged` says a header asked for it. */
  method Deliver(range: Range, ranged: bool, path: string, f: RawFile, cache: FileCache, client: Client,
                 ghost disk: map<string, Bytes>) returns (r: Response)
    requires 0 <= range.first && range.last < |f.content|
    requires !ranged ==> range == Range(0, |f.content| - 1)
    requires cache.Valid() && cache.Mirrors(disk) && path in disk && disk[path] == f.content
    requires f.pos == 0 && client.received == []
    modifies f, cache, client
    ensures cache.Valid() && cache.Mirrors(disk)
    ensures r == Dropped ==> client.received == []
    ensures r != Dropped ==>
              && r.Sent? && r.status == (if ranged then 206 else 200) && r.contentLength == range.ContentLength()
              && client.received <= Body(f.content, range)
              && (r.done ==> client.received == Body(f.content, range))
    ensures r == Dropped ==> f.failed && !(Holds(old(cache.order), path) && |f.content| <= MAX_CACHE_FILE_SIZE)
    ensures !client.failed && (!f.failed || (Holds(old(cache.order), path) && |f.content| <= MAX_CACHE_FILE_SIZE)) ==>
              r.Sent? && r.done
    ensures r.Sent? && !ranged && |f.content| <= MAX_CACHE_FILE_SIZE ==> Cached(path, f.content) in cache.order
  {
    var fileSize := |f.content|;
    var status := if ranged then 206 else 200;
    var cacheable := fileSize <= MAX_CACHE_FILE_SIZE;
    var done;
    if cacheable {
      var cached := Lookup(cache, path, disk);
      if cached.Some? {
        done := SendCached(cached.value, range, client);
        return Sent(status, range.ContentLength(), done);
      }
    }
    if !ranged && cacheable {
      var result := f.Read(fileSize);
      if result.Raised? || |result.bytes| != fileSize {
        return Dropped;
      }
      assert result.bytes == f.content;
      Insert(cache, path, result.bytes, disk);
      done := SendCached(result.bytes, range, client);
      return Sent(status, range.ContentLength(), done);
    }
    var ok := f.Seek(range.first);
    if !ok {
      return Dropped;
    }
    done := SendFromDrive(f, range, client);
    r := Sent(status, range.ContentLength(), done);
  }

  /** Answer one request. Whether the cache or the drive serves it, a finished response
      carries exactly the requested bytes of the file, and an unfinished one a prefix. */
  method Respond(header: Option<string>, path: string, f: RawFile, cache: FileCache, client: Client,
                 ghost disk: map<string, Bytes>) returns (r: Response)
    requires cache.Valid() && cache.Mirrors(disk) && path in disk && disk[path] == f.content
    requires f.pos == 0 && client.received == []
    modifies f, cache, client
    ensures cache.Valid() && cache.Mirrors(disk)
    ensures r.NotSatisfiable? <==> RequestedRange(header, |f.content|) == None
    ensures !r.Sent? ==> client.received == []
    ensures r.Sent? ==>
              var range := RequestedRange(header, |f.content|).value;
              && 0 <= range.first && range.last < |f.content|
              && r.status == (if header.Some? then 206 else 200)
              && r.contentLength == range.ContentLength()
              && client.received <= Body(f.content, range)
              && (r.done ==> client.received == Body(f.content, range))
    ensures r.Sent? && r.done ==> (|client.received| == r.contentLength <==> r.contentLength >= 0)
    ensures r.Sent? ==> (r.contentLength < 0 <==> header.Some? && NegativeSuffix(header.value))
    ensures r == Dropped ==> f.failed && !(Holds(old(cache.order), path) && |f.content| <= MAX_CACHE_FILE_SIZE)
    ensures !client.failed && (!f.failed || (Holds(old(cache.order), path) && |f.content| <= MAX_CACHE_FILE_SIZE)) ==>
              r.NotSatisfiable? || (r.Sent? && r.done)
    ensures r.Sent? && header.None? && |f.content| <= MAX_CACHE_FILE_SIZE ==> Cached(path, f.content) in cache.order
  {
    var chosen := ChooseRange(header, |f.content|);
    if chosen.None? {
      return NotSatisfiable;
    }
    if header.Some? {
      NegativeLength(header.value, |f.content|);
    }
    r := Deliver(chosen.value, header.Some?, path, f, cache, client, disk);
  }

  lemma BodyOfStandsAt(bytes: Bytes, content: Bytes, r: Range)
    requires 0 <= r.first && r.last < |content|
    requires StandsAt(bytes, content, r.first) && |bytes| <= AtLeastZero(r.ContentLength())
    ensures bytes <= Body(content, r)
    ensures |bytes| == AtLeastZero(r.ContentLength()) ==> bytes == Body(content, r)
  {
    if bytes != [] {
      assert content[r.first..r.last + 1][..|bytes|] == content[r.first..r.first + |bytes|];
    }
  }

  method Lookup(cache: FileCache, path: string, ghost disk: map<string, Bytes>) returns (r: Option<Bytes>)
    requires cache.Valid() && cache.Mirrors(disk)
    modifies cache
    ensures cache.Valid() && cache.Mirrors(disk)
    ensures r.Some? <==> Holds(old(cache.order), path)
    ensures r.Some? ==> path in disk && r.value == disk[path] && Cached(path, r.value) in cache.order
    ensures r.None? ==> !Holds(cache.order, path)
  {
    TouchedKeepsEntries(cache.order, path);
    r := cache.CacheGet(path);
    if r.Some? {
      ghost var i :| MovedToEnd(old(cache.order), i, path, r.value, cache.order);
      assert old(cache.order)[i] in old(cache.order);
      assert cache.order[|cache.order| - 1] == Cached(path, r.value);
    }
  }

  method Insert(cache: FileCache, path: string, data: Bytes, ghost disk: map<string, Bytes>)
    requires cache.Valid() && cache.Mirrors(disk) && path in disk && disk[path] == data
    requires |data| <= MAX_CACHE_FILE_SIZE
    modifies cache
    ensures cache.Valid() && cache.Mirrors(disk)
    ensures !Holds(old(cache.order), path) ==> Cached(path, data) in cache.order
  {
    ghost var stored := Stored(cache.order, path, data);
    ghost var i := IndexOf(cache.order, path);
    assert i < |cache.order| ==> cache.order[i] in cache.order;
    assert forall e :: e in stored ==> e in cache.order || e == Cached(path, data);
    cache.CachePut(path, data);
    assert forall e :: e in cache.order ==> e in stored;
    if i == |old(cache.order)| {
      NewPathStays(old(cache.order), path, data, cache.order);
    }
  }
}

/** The disk cache: one file for each entry, an index in memory, two counters beside it.
    Clock readings are arguments. File system calls succeed, except on files that are absent. */
module DiskCache {
  import opened Common
  import opened Accounting
  import Keys

  // ----- Paths -----

  /** A path below the cache directory: subdirectory bytes and a file name. */
  datatype Path = Path(dirs: seq<nat>, name: string)

  /** The configuration, with the key type's printer and the keys a run may use. */
  datatype Config<!K> = Config(
    maxFiles: nat, maxDiskBytes: Option<nat>, defaultTtl: Option<nat>, useSubdirectories: bool, levels: nat,
    text: K -> string, good: K -> bool)

  /** Good keys have texts of their own, which are plain file names and not mistaken for
      temporary files. */
  ghost predicate WellNamed<K(!new)>(c: Config<K>) {
    && (forall j, k :: c.good(j) && c.good(k) && c.text(j) == c.text(k) ==> j == k)
    && (forall k :: c.good(k) ==> '/' !in c.text(k) && !EndsInTmp(c.text(k)))
  }

  /** The multiplicative hash of the key text, in 64-bit wrapping arithmetic. */
  function HashFold(acc: nat, s: string): (h: nat)
    decreases |s|
  {
    if s == "" then acc else HashFold((acc * 31 + s[0] as int) % 0x1_0000_0000_0000_0000, s[1..])
  }

  const WORD := 0x1_0000_0000_0000_0000

  /** The text read as a number in base 31, without a limit. */
  ghost function Base31(s: string): nat {
    if s == "" then 0 else Base31(s[..|s| - 1]) * 31 + s[|s| - 1] as int
  }

  lemma {:induction false} HashAppend(acc: nat, s: string, c: char)
    ensures HashFold(acc, s + [c]) == (HashFold(acc, s) * 31 + c as int) % WORD
    decreases |s|
  {
    if s == "" {
      assert ([c])[1..] == "" && s + [c] == [c];
    } else {
      assert (s + [c])[1..] == s[1..] + [c];
      HashAppend((acc * 31 + s[0] as int) % WORD, s[1..], c);
    }
  }

  /** The wrapping multiplicative hash is the text in base 31, cut to 64 bits at the end. */
  lemma {:induction false} HashIsBase31(s: string)
    ensures HashFold(0, s) == Base31(s) % WORD
    decreases |s|
  {
    if s != "" {
      var front, c := s[..|s| - 1], s[|s| - 1];
      assert s == front + [c];
      HashIsBase31(front);
      HashAppend(0, front, c);
      CutEarlier(Base31(front), c as int);
    }
  }

  lemma CutEarlier(x: nat, c: nat)
    ensures (x % WORD * 31 + c) % WORD == (x * 31 + c) % WORD
  {
    var q := x / WORD;
    assert x == q * WORD + x % WORD;
    assert x * 31 + c == (x % WORD * 31 + c) + (q * 31) * WORD;
    AddMultiple(x % WORD * 31 + c, q * 31);
  }

  lemma AddMultiple(x: nat, q: nat)
    ensures (x + q * WORD) % WORD == x % WORD
  {
  }

  function Shift(hash: nat, bytes: nat): nat {
    if bytes == 0 then hash else Shift(hash / 256, bytes - 1)
  }

  function FilePath<K>(c: Config<K>, k: K): (p: Path)
    ensures p.name == c.text(k)
  {
    var key := c.text(k);
    Path(if c.useSubdirectories then Subdirectories(key, c.levels) else [], key)
  }

  function Subdirectories(key: string, levels: nat): seq<nat> {
    var hash := HashFold(0, key);
    seq(levels, level requires 0 <= level < levels => Shift(hash, level % 8) % 256)
  }

  ghost function PowerOf256(n: nat): nat {
    if n == 0 then 1 else 256 * PowerOf256(n - 1)
  }

  lemma {:induction false} ShiftDivides(hash: nat, bytes: nat)
    ensures PowerOf256(bytes) > 0
    ensures Shift(hash, bytes) == hash / PowerOf256(bytes)
  {
    if bytes > 0 {
      ShiftDivides(hash / 256, bytes - 1);
      DivideTwice(hash, PowerOf256(bytes - 1));
    }
  }

  lemma DivideTwice(x: nat, d: nat)
    requires d > 0
    ensures x / 256 / d == x / (256 * d)
  {
    var q, r := x / 256 / d, x / 256 % d;
    assert x / 256 == q * d + r;
    assert x == q * (256 * d) + (256 * r + x % 256) && 256 * r + x % 256 < 256 * d;
    QuotientIs(x, 256 * d, q, 256 * r + x % 256);
  }

  lemma QuotientIs(x: nat, d: nat, q: nat, r: nat)
    requires r < d && x == q * d + r
    ensures x / d == q
  {
    var p := x / d;
    assert x == p * d + x % d;
    NextMultiple(p, q, d);
    NextMultiple(q, p, d);
  }

  lemma {:induction false} NextMultiple(p: nat, q: nat, d: nat)
    ensures p < q ==> p * d + d <= q * d
  {
    if p < q {
      assert q * d == (q - 1) * d + d;
      NextMultiple(p, q - 1, d);
    }
  }

  /** The directories of a file are the low bytes of the hash of its name, lowest first. */
  lemma DirectoryIs<K>(c: Config<K>, k: K, level: nat)
    requires c.useSubdirectories && level < c.levels
    ensures |FilePath(c, k).dirs| == c.levels && PowerOf256(level % 8) > 0
    ensures FilePath(c, k).dirs[level] == Base31(c.text(k)) % WORD / PowerOf256(level % 8) % 256
  {
    HashIsBase31(c.text(k));
    ShiftDivides(HashFold(0, c.text(k)), level % 8);
  }

  /** Position of the last dot, or the length when there is none. */
  function LastDot(s: string): (i: nat)
    ensures i <= |s|
    ensures i < |s| ==> s[i] == '.'
    ensures forall j :: i < j < |s| ==> s[j] != '.'
    ensures i == |s| ==> '.' !in s
  {
    if s == "" then 0
    else
      var rest := LastDot(s[1..]);
      if rest < |s| - 1 then rest + 1 else if s[0] == '.' then 0 else |s|
  }

  /** `with_extension("tmp")`: replace what follows the last dot, unless it leads the name. */
  function TempPath(p: Path): Path {
    var i := LastDot(p.name);
    p.(name := (if i == 0 then p.name else p.name[..i]) + ".tmp")
  }

  /** What follows the last dot is replaced; a name without one, or with only a leading one,
      gets the extension added. */
  lemma TempPathMeans(p: Path, stem: string, ext: string)
    requires '.' !in ext
    ensures stem != "" && p.name == stem + "." + ext ==> TempPath(p) == Path(p.dirs, stem + ".tmp")
    ensures p.name == ext ==> TempPath(p) == Path(p.dirs, ext + ".tmp")
    ensures p.name == "." + ext ==> TempPath(p) == Path(p.dirs, "." + ext + ".tmp")
  {
    if stem != "" && p.name == stem + "." + ext {
      assert p.name[|stem|] == '.' && LastDot(p.name) == |stem|;
      assert p.name[..|stem|] == stem;
    }
    if p.name == ext {
      assert LastDot(p.name) == |p.name|;
    }
    if p.name == "." + ext {
      assert p.name[0] == '.' && LastDot(p.name) == 0;
    }
  }

  predicate EndsInTmp(name: string) {
    |name| >= 4 && name[|name| - 4..] == ".tmp"
  }

  lemma TempEndsInTmp(p: Path)
    ensures EndsInTmp(TempPath(p).name)
  {
  }

  /** Different good keys have different files, and no file is a temporary one. */
  lemma FilesAreDistinct<K(!new)>(c: Config<K>, j: K, k: K)
    requires WellNamed(c) && c.good(j) && c.good(k)
    ensures FilePath(c, j) == FilePath(c, k) ==> j == k
    ensures FilePath(c, j) != TempPath(FilePath(c, k))
  {
    TempEndsInTmp(FilePath(c, k));
  }

  // ----- The state and what each operation does to it -----

  datatype Entry = Entry(
    filePath: Path, sizeBytes: nat, createdAt: nat, expiresAt: Option<nat>, lastAccessed: nat, accessCount: nat) {

    predicate IsExpired(now: nat) {
      expiresAt.Some? && now >= expiresAt.value
    }

    function Age(now: nat): nat {
      if now >= createdAt then now - createdAt else 0
    }

    function Touch(now: nat): Entry {
      this.(lastAccessed := now, accessCount := accessCount + 1)
    }
  }

  function NewEntry(path: Path, value: Bytes, ttl: nat, now: nat): Entry {
    Entry(path, |value|, now, Some(now + ttl), now, 1)
  }

  datatype Disk<K> = Disk(files: map<Path, Bytes>, index: map<K, Entry>)

  function Empty<K>(): Disk<K> {
    Disk(map[], map[])
  }

  /** A read is given the creation time of the key's file and whether the file can be read. */
  datatype Op<K> =
    | Get(key: K, now: nat, born: nat, readable: bool)
    | Put(key: K, value: Bytes, ttl: nat, now: nat)
    | Contains(key: K, now: nat)
    | Remove(key: K)
    | Clear
    | Size

  datatype Answer = Bytes(value: Option<Bytes>) | Failed | Bool(b: bool) | Count(n: nat) | Unit

  /** Temporary files are not counted; the test on the extension ignores case. */
  predicate Counted(p: Path) {
    var n := |p.name|;
    !(n >= 5 && p.name[n - 4] == '.' && p.name[n - 3] in "tT" && p.name[n - 2] in "mM" && p.name[n - 1] in "pP")
  }

  /** A name that ends in a dot and `tmp` in any case is a temporary file's; no other is. */
  lemma CountedMeans(p: Path, stem: string, ext: string)
    requires p.name == stem + "." + ext && '.' !in ext && stem != ""
    ensures Counted(p) <==> !(|ext| == 3 && ext[0] in "tT" && ext[1] in "mM" && ext[2] in "pP")
  {
    var n := |p.name|;
    assert p.name[|stem|] == '.' && forall j :: |stem| < j < n ==> p.name[j] == ext[j - |stem| - 1];
  }

  function Drop<K>(d: Disk<K>, k: K): Disk<K>
    requires k in d.index
  {
    Disk(d.files - {d.index[k].filePath}, d.index - {k})
  }

  /** An indexed entry whose file is gone or cannot be read is dropped from the index, the file
      stays, and the read fails. A miss in the index falls back to the file; the entry it adds
      never expires. */
  function AfterGet<K>(c: Config<K>, d: Disk<K>, k: K, now: nat, born: nat, readable: bool): (Disk<K>, Answer) {
    var path := FilePath(c, k);
    if k in d.index then
      var e := d.index[k];
      if e.IsExpired(now) then (Drop(d, k), Bytes(None))
      else if readable && e.filePath in d.files then (Touched(d, k, now), Bytes(Some(d.files[e.filePath])))
      else (d.(index := d.index - {k}), Failed)
    else if readable && path in d.files then
      (d.(index := d.index[k := Entry(path, |d.files[path]|, born, None, now, 1)]), Bytes(Some(d.files[path])))
    else (d, Bytes(None))
  }

  function AfterPut<K>(c: Config<K>, d: Disk<K>, k: K, value: Bytes, ttl: nat, now: nat): Disk<K> {
    var path := FilePath(c, k);
    Disk((d.files - {TempPath(path)})[path := value], d.index[k := NewEntry(path, value, ttl, now)])
  }

  function Apply<K>(c: Config<K>, d: Disk<K>, op: Op<K>): (Disk<K>, Answer) {
    match op
    case Get(k, now, born, readable) => AfterGet(c, d, k, now, born, readable)
    case Put(k, v, ttl, now) => (AfterPut(c, d, k, v, ttl, now), Unit)
    case Contains(k, now) =>
      (d, Bool(k in d.index && !d.index[k].IsExpired(now) && d.index[k].filePath in d.files))
    case Remove(k) => if k in d.index then (Drop(d, k), Bool(true)) else (d, Bool(false))
    case Clear => (Empty(), Unit)
    case Size =>
      (d, Count(if |d.index| == 0 then |set p | p in d.files && Counted(p)| else |d.index|))
  }

  ghost predicate Described<K>(c: Config<K>, d: Disk<K>, k: K)
    requires k in d.index
  {
    var e := d.index[k];
    && c.good(k) && e.filePath == FilePath(c, k)
    && e.filePath in d.files && e.sizeBytes == |d.files[e.filePath]|
  }

  /** Each entry belongs to a good key and names its file, which may be gone. */
  ghost predicate Named<K>(c: Config<K>, index: map<K, Entry>) {
    forall k :: k in index ==> c.good(k) && index[k].filePath == FilePath(c, k)
  }

  /** The index describes files: each entry has its own file and knows its length. */
  ghost predicate Indexed<K>(c: Config<K>, d: Disk<K>) {
    forall k :: k in d.index ==> Described(c, d, k)
  }

  /** Every file belongs to an indexed key. */
  ghost predicate Covered<K(!new)>(d: Disk<K>) {
    forall p :: p in d.files ==> exists k :: k in d.index && d.index[k].filePath == p
  }

  ghost predicate Exact<K(!new)>(c: Config<K>, d: Disk<K>) {
    Indexed(c, d) && Covered(d)
  }

  // ----- The reference: a map whose entries expire -----

  datatype Stored = Stored(value: Bytes, expiresAt: Option<nat>)

  type Model<K> = map<K, Stored>

  ghost function View<K>(c: Config<K>, d: Disk<K>): Model<K>
    requires Indexed(c, d)
  {
    map k | k in d.index :: Stored(d.files[d.index[k].filePath], d.index[k].expiresAt)
  }

  predicate Lapsed<K>(m: Model<K>, k: K, now: nat) {
    k in m && m[k].expiresAt.Some? && now >= m[k].expiresAt.value
  }

  ghost function Reference<K>(m: Model<K>, op: Op<K>): (Model<K>, Answer) {
    match op
    case Get(k, now, _, _) =>
      if k !in m then (m, Bytes(None))
      else if Lapsed(m, k, now) then (m - {k}, Bytes(None))
      else (m, Bytes(Some(m[k].value)))
    case Put(k, v, ttl, now) => (m[k := Stored(v, Some(now + ttl))], Unit)
    case Contains(k, now) => (m, Bool(k in m && !Lapsed(m, k, now)))
    case Remove(k) => (m - {k}, Bool(k in m))
    case Clear => (map[], Unit)
    case Size => (m, Count(|m|))
  }

  predicate GoodOp<K>(c: Config<K>, op: Op<K>) {
    match op
    case Get(k, _, _, readable) => c.good(k) && readable
    case Put(k, _, _, _) => c.good(k)
    case Contains(k, _) => c.good(k)
    case Remove(k) => c.good(k)
    case _ => true
  }

  /** Among indexed keys, the file of a good key is its own, and no file is its temporary. */
  lemma NoClash<K(!new)>(c: Config<K>, d: Disk<K>, k: K)
    requires WellNamed(c) && Indexed(c, d) && c.good(k)
    ensures forall j :: j in d.index ==> d.index[j].filePath != TempPath(FilePath(c, k))
    ensures forall j :: j in d.index && j != k ==> d.index[j].filePath != FilePath(c, k)
  {
    forall j | j in d.index
      ensures d.index[j].filePath != TempPath(FilePath(c, k)) && (j != k ==> d.index[j].filePath != FilePath(c, k))
    {
      assert Described(c, d, j);
      FilesAreDistinct(c, j, k);
    }
  }

  lemma DropKeepsIndexed<K(!new)>(c: Config<K>, d: Disk<K>, k: K)
    requires Indexed(c, d) && k in d.index
    requires forall j :: j in d.index && j != k ==> d.index[j].filePath != d.index[k].filePath
    ensures Indexed(c, Drop(d, k))
  {
    var e := Drop(d, k);
    forall j | j in e.index ensures Described(c, e, j) {
      assert Described(c, d, j);
    }
  }

  lemma DropStillIndexed<K(!new)>(c: Config<K>, d: Disk<K>, k: K)
    requires WellNamed(c) && Indexed(c, d) && k in d.index
    ensures Indexed(c, Drop(d, k))
  {
    assert Described(c, d, k);
    NoClash(c, d, k);
    DropKeepsIndexed(c, d, k);
  }

  lemma DropKeepsCovered<K(!new)>(d: Disk<K>, k: K)
    requires Covered(d) && k in d.index
    ensures Covered(Drop(d, k))
  {
    var e := Drop(d, k);
    forall p | p in e.files ensures exists j :: j in e.index && e.index[j].filePath == p {
      var j :| j in d.index && d.index[j].filePath == p;
      assert j in e.index;
    }
  }

  lemma DropView<K(!new)>(c: Config<K>, d: Disk<K>, k: K)
    requires Indexed(c, d) && k in d.index && Indexed(c, Drop(d, k))
    requires forall j :: j in d.index && j != k ==> d.index[j].filePath != d.index[k].filePath
    ensures View(c, Drop(d, k)) == View(c, d) - {k}
  {
  }

  lemma TouchView<K(!new)>(c: Config<K>, d: Disk<K>, k: K, now: nat)
    requires Indexed(c, d) && k in d.index && Indexed(c, Touched(d, k, now))
    ensures View(c, Touched(d, k, now)) == View(c, d)
  {
  }

  lemma DropRefines<K(!new)>(c: Config<K>, d: Disk<K>, k: K)
    requires WellNamed(c) && Exact(c, d) && k in d.index
    ensures Exact(c, Drop(d, k)) && View(c, Drop(d, k)) == View(c, d) - {k}
  {
    DropStillIndexed(c, d, k);
    DropKeepsCovered(d, k);
    assert Described(c, d, k);
    NoClash(c, d, k);
    DropView(c, d, k);
  }

  /** Writing a file under an entry of its own, past a temporary file that is no entry's. */
  function Written<K>(d: Disk<K>, k: K, temp: Path, value: Bytes, e: Entry): Disk<K> {
    Disk((d.files - {temp})[e.filePath := value], d.index[k := e])
  }

  lemma WriteKeepsIndexed<K(!new)>(c: Config<K>, d: Disk<K>, k: K, temp: Path, value: Bytes, e: Entry)
    requires Indexed(c, d) && c.good(k) && e.filePath == FilePath(c, k) && e.sizeBytes == |value|
    requires forall j :: j in d.index ==> d.index[j].filePath != temp
    requires forall j :: j in d.index && j != k ==> d.index[j].filePath != e.filePath
    ensures Indexed(c, Written(d, k, temp, value, e))
  {
    var w := Written(d, k, temp, value, e);
    forall j | j in w.index ensures Described(c, w, j) {
      if j != k {
        assert Described(c, d, j);
      }
    }
  }

  lemma WriteView<K(!new)>(c: Config<K>, d: Disk<K>, k: K, temp: Path, value: Bytes, e: Entry)
    requires Indexed(c, d) && Indexed(c, Written(d, k, temp, value, e))
    requires forall j :: j in d.index ==> d.index[j].filePath != temp
    requires forall j :: j in d.index && j != k ==> d.index[j].filePath != e.filePath
    ensures View(c, Written(d, k, temp, value, e)) == View(c, d)[k := Stored(value, e.expiresAt)]
  {
  }

  lemma WriteKeepsCovered<K(!new)>(d: Disk<K>, k: K, temp: Path, value: Bytes, e: Entry)
    requires Covered(d)
    requires k in d.index ==> d.index[k].filePath == e.filePath
    ensures Covered(Written(d, k, temp, value, e))
  {
    var w := Written(d, k, temp, value, e);
    forall p | p in w.files ensures exists j :: j in w.index && w.index[j].filePath == p {
      if p == e.filePath {
        assert w.index[k].filePath == p;
      } else {
        var j :| j in d.index && d.index[j].filePath == p;
        assert j in w.index && w.index[j].filePath == p;
      }
    }
  }

  lemma PutKeepsIndexed<K(!new)>(c: Config<K>, d: Disk<K>, k: K, value: Bytes, ttl: nat, now: nat)
    requires WellNamed(c) && Indexed(c, d) && c.good(k)
    ensures Indexed(c, AfterPut(c, d, k, value, ttl, now))
    ensures k in d.index ==> d.index[k].filePath == FilePath(c, k)
  {
    NoClash(c, d, k);
    assert k in d.index ==> Described(c, d, k);
    WriteKeepsIndexed(c, d, k, TempPath(FilePath(c, k)), value, NewEntry(FilePath(c, k), value, ttl, now));
  }

  lemma PutRefines<K(!new)>(c: Config<K>, d: Disk<K>, k: K, value: Bytes, ttl: nat, now: nat)
    requires WellNamed(c) && Exact(c, d) && c.good(k)
    ensures Exact(c, AfterPut(c, d, k, value, ttl, now))
    ensures View(c, AfterPut(c, d, k, value, ttl, now)) == View(c, d)[k := Stored(value, Some(now + ttl))]
  {
    PutKeepsIndexed(c, d, k, value, ttl, now);
    WriteKeepsCovered(d, k, TempPath(FilePath(c, k)), value, NewEntry(FilePath(c, k), value, ttl, now));
    NoClash(c, d, k);
    WriteView(c, d, k, TempPath(FilePath(c, k)), value, NewEntry(FilePath(c, k), value, ttl, now));
  }

  function Touched<K>(d: Disk<K>, k: K, now: nat): Disk<K>
    requires k in d.index
  {
    d.(index := d.index[k := d.index[k].Touch(now)])
  }

  lemma TouchKeepsIndexed<K(!new)>(c: Config<K>, d: Disk<K>, k: K, now: nat)
    requires Indexed(c, d) && k in d.index
    ensures Indexed(c, Touched(d, k, now))
  {
    var e := Touched(d, k, now);
    forall j | j in e.index ensures Described(c, e, j) {
      assert Described(c, d, j);
    }
  }

  lemma TouchKeepsCovered<K(!new)>(d: Disk<K>, k: K, now: nat)
    requires Covered(d) && k in d.index
    ensures Covered(Touched(d, k, now))
  {
    var e := Touched(d, k, now);
    forall p | p in e.files ensures exists j :: j in e.index && e.index[j].filePath == p {
      var j :| j in d.index && d.index[j].filePath == p;
      assert j in e.index && e.index[j].filePath == p;
    }
  }

  /** With every file covered, a key that is not indexed has no file to fall back to. */
  lemma NoFallback<K(!new)>(c: Config<K>, d: Disk<K>, k: K)
    requires WellNamed(c) && Exact(c, d) && c.good(k) && k !in d.index
    ensures FilePath(c, k) !in d.files
  {
    NoClash(c, d, k);
  }

  lemma GetRefines<K(!new)>(c: Config<K>, d: Disk<K>, k: K, now: nat, born: nat)
    requires WellNamed(c) && Exact(c, d) && c.good(k)
    ensures Exact(c, AfterGet(c, d, k, now, born, true).0)
    ensures var (e, answer) := AfterGet(c, d, k, now, born, true);
            Reference(View(c, d), Get(k, now, born, true)) == (View(c, e), answer)
  {
    if k in d.index {
      assert Described(c, d, k);
      if d.index[k].IsExpired(now) {
        DropRefines(c, d, k);
      } else {
        TouchKeepsIndexed(c, d, k, now);
        TouchKeepsCovered(d, k, now);
        TouchView(c, d, k, now);
      }
    } else {
      NoFallback(c, d, k);
    }
  }

  /** Each operation does on the disk what it does on the expiring map, with the same answer. */
  lemma StepRefines<K(!new)>(c: Config<K>, d: Disk<K>, op: Op<K>)
    requires WellNamed(c) && Exact(c, d) && GoodOp(c, op)
    ensures Exact(c, Apply(c, d, op).0)
    ensures Reference(View(c, d), op) == (View(c, Apply(c, d, op).0), Apply(c, d, op).1)
  {
    match op
    case Get(k, now, born, _) => GetRefines(c, d, k, now, born);
    case Put(k, v, ttl, now) => PutRefines(c, d, k, v, ttl, now);
    case Remove(k) => RemoveRefines(c, d, k);
    case Contains(k, now) => ContainsRefines(c, d, k, now);
    case Clear =>
    case Size => SizeRefines(c, d);
  }

  lemma RemoveRefines<K(!new)>(c: Config<K>, d: Disk<K>, k: K)
    requires WellNamed(c) && Exact(c, d)
    ensures Exact(c, Apply(c, d, Remove(k)).0)
    ensures Reference(View(c, d), Remove(k)) == (View(c, Apply(c, d, Remove(k)).0), Apply(c, d, Remove(k)).1)
  {
    if k in d.index {
      DropRefines(c, d, k);
    } else {
      assert View(c, d) - {k} == View(c, d);
    }
  }

  lemma ContainsRefines<K(!new)>(c: Config<K>, d: Disk<K>, k: K, now: nat)
    requires Exact(c, d)
    ensures Reference(View(c, d), Contains(k, now)) == (View(c, d), Apply(c, d, Contains(k, now)).1)
  {
    assert k in d.index ==> Described(c, d, k);
  }

  lemma SizeRefines<K(!new)>(c: Config<K>, d: Disk<K>)
    requires Exact(c, d)
    ensures |View(c, d)| == |d.index|
    ensures |d.index| == 0 ==> |set p | p in d.files && Counted(p)| == 0
  {
    assert View(c, d).Keys == d.index.Keys;
    if |d.index| == 0 {
      assert d.index == map[];
      assert (set p | p in d.files && Counted(p)) == {};
    }
  }

  // ----- Every run -----

  function RunDisk<K>(c: Config<K>, d: Disk<K>, ops: seq<Op<K>>): (Disk<K>, seq<Answer>)
    decreases |ops|
  {
    if ops == [] then (d, [])
    else
      var (e, a) := Apply(c, d, ops[0]);
      var (f, rest) := RunDisk(c, e, ops[1..]);
      (f, [a] + rest)
  }

  ghost function RunReference<K>(m: Model<K>, ops: seq<Op<K>>): (Model<K>, seq<Answer>)
    decreases |ops|
  {
    if ops == [] then (m, [])
    else
      var (n, a) := Reference(m, ops[0]);
      var (f, rest) := RunReference(n, ops[1..]);
      (f, [a] + rest)
  }

  lemma {:induction false} RunRefines<K(!new)>(c: Config<K>, d: Disk<K>, ops: seq<Op<K>>)
    requires WellNamed(c) && Exact(c, d) && forall op :: op in ops ==> GoodOp(c, op)
    ensures Exact(c, RunDisk(c, d, ops).0)
    ensures RunReference(View(c, d), ops) == (View(c, RunDisk(c, d, ops).0), RunDisk(c, d, ops).1)
    decreases |ops|
  {
    if ops != [] {
      StepRefines(c, d, ops[0]);
      RunRefines(c, Apply(c, d, ops[0]).0, ops[1..]);
    }
  }

  /** From an empty directory every run answers like the expiring map, and the files on disk
      are exactly those of the indexed keys. */
  lemma EveryRunRefines<K(!new)>(c: Config<K>, ops: seq<Op<K>>)
    requires WellNamed(c) && forall op :: op in ops ==> GoodOp(c, op)
    ensures RunDisk(c, Empty(), ops).1 == RunReference(map[], ops).1
    ensures Exact(c, RunDisk(c, Empty(), ops).0)
  {
    assert View(c, Empty()) == map[];
    RunRefines(c, Empty(), ops);
  }

  // ----- The cache object -----

  function Sizes<K>(index: map<K, Entry>): map<K, nat> {
    map k | k in index :: index[k].sizeBytes
  }

  ghost function Usage<K>(index: map<K, Entry>): nat {
    Total(Sizes(index))
  }

  lemma UsageInsert<K>(index: map<K, Entry>, k: K, e: Entry)
    ensures Usage(index[k := e]) == Usage(index) - (if k in index then index[k].sizeBytes else 0) + e.sizeBytes
    ensures k in index ==> index[k].sizeBytes <= Usage(index)
    ensures |index[k := e]| == |index| + (if k in index then 0 else 1)
  {
    assert Sizes(index[k := e]) == Sizes(index)[k := e.sizeBytes];
    ChargeInsert(index, Sizes(index), k, e, e.sizeBytes);
  }

  lemma UsageRemove<K>(index: map<K, Entry>, k: K)
    requires k in index
    ensures Usage(index) == index[k].sizeBytes + Usage(index - {k})
    ensures |index - {k}| == |index| - 1
  {
    RemoveShrinks(index, k);
    TotalSplit(Sizes(index), k);
    assert Sizes(index) - {k} == Sizes(index - {k});
  }

  // ----- The background cleanup pass -----

  const DAY := 24 * 60 * 60

  /** Entries that expired or are older than a day. */
  function Aged<K>(index: map<K, Entry>, now: nat): set<K> {
    set k | k in index && (index[k].IsExpired(now) || index[k].Age(now) > DAY)
  }

  function LastAccess<K>(index: map<K, Entry>): map<K, int> {
    map k | k in index :: index[k].lastAccessed as int
  }

  ghost predicate OverLimit<K>(c: Config<K>, index: map<K, Entry>) {
    |index| > c.maxFiles || (c.maxDiskBytes.Some? && Usage(index) > c.maxDiskBytes.value)
  }

  function Excess(maxFiles: nat, entries: nat): nat {
    if entries > maxFiles then entries - maxFiles * 90 / 100 else 0
  }

  /** Aged entries go; over a limit, the least recently used of the rest go too. */
  ghost predicate Cleans<K(!new)>(c: Config<K>, before: map<K, Entry>, after: map<K, Entry>, now: nat) {
    var kept := before - Aged(before, now);
    if OverLimit(c, before) then RemovedByRank(kept, after, LastAccess(kept), Excess(c.maxFiles, |before|))
    else after == kept
  }

  /** Over `maxFiles`, the pass ends at or below 90% of it; and every survivor is unexpired,
      at most a day old, and at least as recently used as each entry evicted by rank. */
  lemma CleanupReachesTarget<K(!new)>(c: Config<K>, before: map<K, Entry>, after: map<K, Entry>, now: nat)
    requires Cleans(c, before, after, now)
    ensures |before| > c.maxFiles ==> |after| <= c.maxFiles * 90 / 100
    ensures forall k :: k in after ==> k in before && after[k] == before[k]
                                       && !after[k].IsExpired(now) && after[k].Age(now) <= DAY
    ensures forall v, s :: v in before && v !in after && v !in Aged(before, now) && s in after ==>
                             before[v].lastAccessed <= after[s].lastAccessed
  {
    var kept := before - Aged(before, now);
    assert kept.Keys <= before.Keys;
    SubsetSize(kept.Keys, before.Keys);
    forall v, s | v in before && v !in after && v !in Aged(before, now) && s in after
      ensures before[v].lastAccessed <= after[s].lastAccessed
    {
      assert v in kept && s in kept;
      assert LastAccess(kept)[v] <= LastAccess(kept)[s];
    }
  }

  /** The time of an entry has come: its expiry, or a day since it was created. */
  predicate Outlived(e: Entry, now: nat) {
    (e.expiresAt.Some? && now >= e.expiresAt.value) || now > e.createdAt + 86400
  }

  /** A pass, in terms of the entries: at or below `maxFiles` exactly the outlived entries go;
      above it, as many more as bring the count down by what 90% of `maxFiles` demands, the
      least recently used first. */
  lemma CleanupMeans<K(!new)>(c: Config<K>, before: map<K, Entry>, after: map<K, Entry>, now: nat)
    requires Cleans(c, before, after, now)
    ensures |before| <= c.maxFiles ==> forall k :: k in before ==> (k in after <==> !Outlived(before[k], now))
    ensures var target, outlived := c.maxFiles * 90 / 100, |set k | k in before && Outlived(before[k], now)|;
            |before| > c.maxFiles ==> |after| == if outlived <= target then target - outlived else 0
    ensures forall v, s :: v in before && v !in after && !Outlived(before[v], now) && s in after ==>
                             s in before && before[v].lastAccessed <= before[s].lastAccessed
  {
    var kept, outlived := before - Aged(before, now), set k | k in before && Outlived(before[k], now);
    assert outlived == Aged(before, now);
    assert kept.Keys == before.Keys - outlived;
    assert |kept.Keys| == |before.Keys| - |outlived|;
    SubsetSize(outlived, before.Keys);
    CleanupReachesTarget(c, before, after, now);
    if |before| <= c.maxFiles {
      OnlyAgedGo(c, before, after, now);
    }
  }

  /** An entry just put outlasts every pass that is not over `maxFiles` until its lifetime or a
      day is over, and no longer. */
  lemma FreshEntrySurvives<K(!new)>(
    c: Config<K>, d: Disk<K>, k: K, value: Bytes, ttl: nat, now: nat, later: nat, after: map<K, Entry>)
    requires Cleans(c, AfterPut(c, d, k, value, ttl, now).index, after, later)
    requires |AfterPut(c, d, k, value, ttl, now).index| <= c.maxFiles
    ensures k in after <==> later < now + ttl && later <= now + 86400
  {
    CleanupMeans(c, AfterPut(c, d, k, value, ttl, now).index, after, later);
  }

  /** The byte limit is read and changes nothing: with it or without it, the pass may do
      exactly the same. */
  lemma DiskLimitNotEnforced<K(!new)>(c: Config<K>, before: map<K, Entry>, after: map<K, Entry>, now: nat)
    ensures Cleans(c, before, after, now) <==> Cleans(c.(maxDiskBytes := None), before, after, now)
  {
    RemovesNone(before - Aged(before, now), after, LastAccess(before - Aged(before, now)));
  }

  /** At or below `maxFiles` only aged entries go. */
  lemma OnlyAgedGo<K(!new)>(c: Config<K>, before: map<K, Entry>, after: map<K, Entry>, now: nat)
    requires Cleans(c, before, after, now) && |before| <= c.maxFiles
    ensures after == before - Aged(before, now)
  {
    DiskLimitNotEnforced(c, before, after, now);
  }

  function AccessedBefore<K>(index: map<K, Entry>, k: K): set<K>
    requires k in index
  {
    set j | j in index && index[j].lastAccessed < index[k].lastAccessed
  }

  /** The entries left by a pass, computed from the index before it: not aged, and with enough
      other entries used before them. */
  function Survivors<K>(c: Config<K>, before: map<K, Entry>, now: nat): map<K, Entry> {
    var kept := before - Aged(before, now);
    map k | k in kept && |AccessedBefore(kept, k)| >= Excess(c.maxFiles, |before|) :: kept[k]
  }

  ghost predicate DistinctAccess<K>(index: map<K, Entry>) {
    forall j, k :: j in index && k in index && j != k ==> index[j].lastAccessed != index[k].lastAccessed
  }

  /** The entries a pass may leave when access times are equal: enough others are no newer. */
  function MaySurvive<K>(c: Config<K>, before: map<K, Entry>, now: nat): map<K, Entry> {
    var kept := before - Aged(before, now);
    map k | k in kept && |AccessedByThen(kept, k)| >= Excess(c.maxFiles, |before|) :: kept[k]
  }

  function AccessedByThen<K>(index: map<K, Entry>, k: K): set<K>
    requires k in index
  {
    set j | j in index && j != k && index[j].lastAccessed <= index[k].lastAccessed
  }

  /** Whatever ties there are, the pass leaves at least the one and at most the other. */
  lemma CleanupIsBetween<K(!new)>(c: Config<K>, before: map<K, Entry>, after: map<K, Entry>, now: nat)
    requires Cleans(c, before, after, now)
    ensures SubMap(Survivors(c, before, now), after) && SubMap(after, MaySurvive(c, before, now))
  {
    var kept := before - Aged(before, now);
    RemovesNone(kept, after, LastAccess(kept));
    forall k | k in kept
      ensures |AccessedBefore(kept, k)| >= Excess(c.maxFiles, |before|) ==> k in after
      ensures k in after ==> |AccessedByThen(kept, k)| >= Excess(c.maxFiles, |before|)
    {
      RemovedIsBetween(kept, after, LastAccess(kept), Excess(c.maxFiles, |before|), k);
      assert AccessedBefore(kept, k) == RankedBelow(kept, LastAccess(kept), k);
      assert AccessedByThen(kept, k) == RankedNoHigher(kept, LastAccess(kept), k);
    }
  }

  /** With distinct access times, or at or below `maxFiles`, the index before the pass fixes
      the index after it. */
  lemma CleanupIsExact<K(!new)>(c: Config<K>, before: map<K, Entry>, after: map<K, Entry>, now: nat)
    requires Cleans(c, before, after, now)
    requires DistinctAccess(before) || |before| <= c.maxFiles
    ensures after == Survivors(c, before, now)
  {
    CleanupIsBetween(c, before, after, now);
    NoTies(c, before, now);
    SubMapsAreEqual(Survivors(c, before, now), after);
  }

  lemma NoTies<K(!new)>(c: Config<K>, before: map<K, Entry>, now: nat)
    requires DistinctAccess(before) || |before| <= c.maxFiles
    ensures MaySurvive(c, before, now) == Survivors(c, before, now)
  {
    var kept := before - Aged(before, now);
    forall k | k in kept && DistinctAccess(before) ensures AccessedByThen(kept, k) == AccessedBefore(kept, k) {
    }
  }

  /** So whether the pass ends within the byte limit depends on what it never looks at. */
  lemma CleanupMeetsByteLimit<K(!new)>(c: Config<K>, before: map<K, Entry>, after: map<K, Entry>, now: nat, limit: nat)
    requires Cleans(c, before, after, now)
    ensures |before| <= c.maxFiles ==> (Usage(after) <= limit <==> Usage(before - Aged(before, now)) <= limit)
    ensures DistinctAccess(before) ==> (Usage(after) <= limit <==> Usage(Survivors(c, before, now)) <= limit)
    ensures Usage(Survivors(c, before, now)) <= Usage(after) <= Usage(MaySurvive(c, before, now))
  {
    CleanupIsBetween(c, before, after, now);
    TotalOfSubMap(Sizes(Survivors(c, before, now)), Sizes(after));
    TotalOfSubMap(Sizes(after), Sizes(MaySurvive(c, before, now)));
    if |before| <= c.maxFiles {
      OnlyAgedGo(c, before, after, now);
    }
    if DistinctAccess(before) {
      CleanupIsExact(c, before, after, now);
    }
  }

  /** One fresh entry of ten bytes under a limit of five stays. */
  lemma DiskStaysOverLimit<K(!new)>(c: Config<K>, k: K, path: Path) returns (index: map<K, Entry>)
    requires c.maxFiles == 1 && c.maxDiskBytes == Some(5)
    ensures index == map[k := Entry(path, 10, 0, None, 0, 1)]
    ensures Usage(index) > 5 && Cleans(c, index, index, 0)
    ensures forall after :: Cleans(c, index, after, 0) ==> after == index
  {
    index := map[k := Entry(path, 10, 0, None, 0, 1)];
    TotalOfOne(Sizes(index), k);
    assert index - Aged(index, 0) == index;
    DiskLimitNotEnforced(c, index, index, 0);
    forall after | Cleans(c, index, after, 0) ensures after == index {
      OnlyAgedGo(c, index, after, 0);
    }
  }

  /** The pass settles counters of its own, not the cache's: the cache's entry counter stays
      right exactly when nothing has aged and there are no more than `maxFiles` entries. */
  lemma CleanupLeavesCounters<K(!new)>(c: Config<K>, before: map<K, Entry>, after: map<K, Entry>, now: nat, entryCount: nat)
    requires Cleans(c, before, after, now) && entryCount == |before|
    ensures entryCount == |after| <==> Aged(before, now) == {} && |before| <= c.maxFiles
  {
    CleanupReachesTarget(c, before, after, now);
    if |before| <= c.maxFiles {
      OnlyAgedGo(c, before, after, now);
      assert after.Keys == before.Keys - Aged(before, now);
      assert Aged(before, now) == {} ==> after == before;
    }
  }

  /** The byte counter stays right exactly when every entry that must go is empty: for
      entries that are not empty, on the same condition as the entry counter. */
  lemma CleanupLeavesUsage<K(!new)>(c: Config<K>, before: map<K, Entry>, after: map<K, Entry>, now: nat, diskUsage: nat)
    requires Cleans(c, before, after, now) && diskUsage == Usage(before)
    ensures DistinctAccess(before) || |before| <= c.maxFiles ==>
              (diskUsage == Usage(after) <==> forall k :: k in before && before[k].sizeBytes > 0 ==> k in Survivors(c, before, now))
    ensures (forall k :: k in before ==> before[k].sizeBytes > 0) ==>
              (diskUsage == Usage(after) <==> Aged(before, now) == {} && |before| <= c.maxFiles)
    ensures (forall k :: k in before && before[k].sizeBytes > 0 ==> k in Survivors(c, before, now)) ==> diskUsage == Usage(after)
    ensures (exists k :: k in before && before[k].sizeBytes > 0 && k !in MaySurvive(c, before, now)) ==> diskUsage != Usage(after)
  {
    CleanupIsBetween(c, before, after, now);
    CleanupReachesTarget(c, before, after, now);
    UsageOfPart(before, after);
    if DistinctAccess(before) || |before| <= c.maxFiles {
      CleanupIsExact(c, before, after, now);
    }
    CleanupLeavesCounters(c, before, after, now, |before|);
    if forall k :: k in before ==> before[k].sizeBytes > 0 {
      SameKeysSameSize(before, after);
    }
  }

  lemma SameKeysSameSize<K(!new)>(before: map<K, Entry>, after: map<K, Entry>)
    requires SubMap(after, before)
    ensures |before| == |after| <==> forall k :: k in before ==> k in after
  {
    assert after.Keys <= before.Keys;
    assert (forall k :: k in before ==> k in after) ==> after.Keys == before.Keys;
    if |before| == |after| {
      SameSizeSubset(after.Keys, before.Keys);
    }
  }

  /** A part of the index has the same bytes exactly when what is missing is empty. */
  lemma UsageOfPart<K(!new)>(before: map<K, Entry>, after: map<K, Entry>)
    requires SubMap(after, before)
    ensures Usage(before) == Usage(after) <==> forall k :: k in before && before[k].sizeBytes > 0 ==> k in after
  {
    var gone := before.Keys - after.Keys;
    TotalPartition(Sizes(before), gone);
    assert Sizes(before) - gone == Sizes(after);
    var missing := Restrict(Sizes(before), gone);
    TotalIsZero(missing);
    assert forall k :: k in before && k !in after ==> k in missing && missing[k] == before[k].sizeBytes;
    assert forall k :: k in missing ==> k in before && k !in after && missing[k] == before[k].sizeBytes;
  }

  /** One expired entry: the pass empties the index, and both counters stay behind. */
  lemma CleanupMiscounts<K(!new)>(c: Config<K>, k: K, path: Path) returns (before: map<K, Entry>)
    ensures before == map[k := Entry(path, 5, 0, Some(1), 0, 1)]
    ensures Cleans(c, before, map[], 1) && |before| == 1 && Usage(before) == 5
    ensures forall after :: Cleans(c, before, after, 1) ==> |after| == 0 && Usage(after) == 0
  {
    before := map[k := Entry(path, 5, 0, Some(1), 0, 1)];
    TotalOfOne(Sizes(before), k);
    var kept := before - Aged(before, 1);
    assert kept == map[];
    forall after | Cleans(c, before, after, 1) ensures after == map[] {
      assert SubMap(after, kept);
    }
    assert Sizes<K>(map[]) == map[];
  }

  /** The first `excess` entries by last access. */
  method LeastRecent<K(==, !new)>(kept: map<K, Entry>, excess: nat) returns (victims: seq<K>)
    ensures RemovedByRank(kept, kept - Elements(victims), LastAccess(kept), excess)
  {
    var rank := LastAccess(kept);
    var candidates := Enumerate(kept.Keys);
    SortKeepsEnumeration(candidates, kept.Keys, rank);
    SortByRankSorts(candidates, rank);
    candidates := SortByRank(candidates, rank);
    var n := if excess < |candidates| then excess else |candidates|;
    victims := candidates[..n];
    PrefixRemovesByRank(candidates, kept, kept - Elements(victims), rank, n);
  }

  lemma RemoveBoth<K, V>(m: map<K, V>, a: seq<K>, b: seq<K>)
    ensures m - Elements(a + b) == m - Elements(a) - Elements(b)
  {
    assert Elements(a + b) == Elements(a) + Elements(b);
  }

  /** A described index stays described, and a covered directory covered. */
  ghost predicate Keeps<K(!new)>(c: Config<K>, before: Disk<K>, after: Disk<K>) {
    (Indexed(c, before) ==> Indexed(c, after)) && (Covered(before) ==> Covered(after))
  }

  /** Exactly the files of entries that went are gone. */
  ghost predicate FilesFollow<K(!new)>(before: Disk<K>, after: Disk<K>) {
    forall p :: p in before.files ==>
      (p !in after.files <==> exists k :: k in before.index && k !in after.index && before.index[k].filePath == p)
  }

  lemma DropKeeps<K(!new)>(c: Config<K>, d: Disk<K>, k: K)
    requires WellNamed(c) && k in d.index
    ensures Keeps(c, d, Drop(d, k))
  {
    if Indexed(c, d) {
      DropStillIndexed(c, d, k);
    }
    if Covered(d) {
      DropKeepsCovered(d, k);
    }
  }

  class DiskCache<K(==, !new)> {
    const config: Config<K>
    var files: map<Path, Bytes>
    var index: map<K, Entry>
    var entryCount: nat
    var diskUsage: nat

    ghost function State(): Disk<K>
      reads this
    {
      Disk(files, index)
    }

    /** Entries name their files, and the counters say what the index holds. */
    ghost predicate Valid()
      reads this
    {
      && WellNamed(config) && Named(config, index)
      && entryCount == |index| && diskUsage == Usage(index)
    }

    /** Open a cache directory; what is in it is not read. */
    constructor (config: Config<K>, files: map<Path, Bytes>)
      requires WellNamed(config)
      ensures Valid() && this.config == config && State() == Disk(files, map[])
    {
      this.config, this.files := config, files;
      index, entryCount, diskUsage := map[], 0, 0;
    }

    /** Write beside the file, then rename over it. */
    method WriteFile(path: Path, data: Bytes)
      modifies this`files
      ensures files == (old(files) - {TempPath(path)})[path := data]
    {
      var temp := TempPath(path);
      files := files[temp := []];
      files := files[temp := data];
      var moved := files[temp];
      files := files - {temp};
      files := files[path := moved];
      assert files == (old(files) - {temp})[path := data];
    }

    method DropEntry(key: K)
      requires Valid() && key in index
      modifies this
      ensures Valid() && State() == Drop(old(State()), key)
    {
      UsageRemove(index, key);
      var entry := index[key];
      index := index - {key};
      entryCount := entryCount - 1;
      diskUsage := diskUsage - entry.sizeBytes;
      files := files - {entry.filePath};
    }

    /** Drop an entry whose file cannot be read; the file is left alone. */
    method Forget(key: K)
      requires Valid() && key in index
      modifies this`index, this`entryCount, this`diskUsage
      ensures Valid() && index == old(index) - {key}
    {
      UsageRemove(index, key);
      index, entryCount, diskUsage := index - {key}, entryCount - 1, diskUsage - index[key].sizeBytes;
    }

    method GetOp(key: K, now: nat, born: nat, readable: bool) returns (r: Answer)
      requires Valid() && config.good(key)
      modifies this
      ensures Valid() && (State(), r) == AfterGet(config, old(State()), key, now, born, readable)
    {
      if key in index {
        var entry := index[key];
        if entry.IsExpired(now) {
          DropEntry(key);
          return Bytes(None);
        }
        if !readable || entry.filePath !in files {
          Forget(key);
          return Failed;
        }
        UsageInsert(index, key, entry.Touch(now));
        index := index[key := entry.Touch(now)];
        return Bytes(Some(files[entry.filePath]));
      }
      var path := FilePath(config, key);
      if !readable || path !in files {
        return Bytes(None);
      }
      r := Bytes(Some(files[path]));
      Adopt(key, Entry(path, |files[path]|, born, None, now, 1));
    }

    /** Index a file found on disk. */
    method Adopt(key: K, entry: Entry)
      requires Valid() && config.good(key) && key !in index && entry.filePath == FilePath(config, key)
      modifies this`index, this`entryCount, this`diskUsage
      ensures Valid() && index == old(index)[key := entry]
    {
      UsageInsert(index, key, entry);
      index, entryCount, diskUsage := index[key := entry], entryCount + 1, diskUsage + entry.sizeBytes;
    }

    method PutWithTtl(key: K, value: Bytes, ttl: nat, now: nat)
      requires Valid() && config.good(key)
      modifies this
      ensures Valid() && State() == AfterPut(config, old(State()), key, value, ttl, now)
    {
      var path := FilePath(config, key);
      var entry := NewEntry(path, value, ttl, now);
      UsageInsert(index, key, entry);
      WriteFile(path, value);
      Account(key, |value|);
      // A key's path never changes, so the source's removal of an old file has nothing to do.
      assert key in index ==> index[key].filePath == path;
      index := index[key := entry];
      assert State() == AfterPut(config, old(State()), key, value, ttl, now);
    }

    /** Charge the counters for the entry about to be indexed. */
    method Account(key: K, newSize: nat)
      requires key in index ==> index[key].sizeBytes <= diskUsage
      modifies this`entryCount, this`diskUsage
      ensures entryCount == old(entryCount) + (if key in index then 0 else 1)
      ensures diskUsage == old(diskUsage) - (if key in index then index[key].sizeBytes else 0) + newSize
    {
      if key in index {
        var oldSize := index[key].sizeBytes;
        if newSize > oldSize {
          diskUsage := diskUsage + (newSize - oldSize);
        } else {
          diskUsage := diskUsage - (oldSize - newSize);
        }
      } else {
        entryCount := entryCount + 1;
        diskUsage := diskUsage + newSize;
      }
    }

    /** True exactly when the key is indexed and a read at the same moment returns its bytes. */
    method ContainsOp(key: K, now: nat) returns (found: bool)
      ensures found <==> key in index && AfterGet(config, State(), key, now, now, true).1 !in {Bytes(None), Failed}
      ensures Apply(config, State(), Contains(key, now)) == (State(), Bool(found))
    {
      found := key in index && !index[key].IsExpired(now) && index[key].filePath in files;
    }

    method RemoveOp(key: K) returns (removed: bool)
      requires Valid()
      modifies this
      ensures Valid() && (State(), Bool(removed)) == Apply(config, old(State()), Remove(key))
    {
      removed := key in index;
      if removed {
        DropEntry(key);
      }
    }

    method ClearOp()
      requires Valid()
      modifies this
      ensures Valid() && State() == Empty()
    {
      index, entryCount, diskUsage := map[], 0, 0;
      files := map[];
    }

    method RemoveListed(keys: seq<K>)
      requires WellNamed(config) && Named(config, index)
      modifies this`files, this`index
      ensures Named(config, index) && index == old(index) - Elements(keys)
      ensures SubMap(files, old(files)) && Keeps(config, old(State()), State())
      ensures FilesFollow(old(State()), State())
    {
      for i := 0 to |keys|
        invariant Named(config, index) && index == old(index) - Elements(keys[..i])
        invariant SubMap(files, old(files)) && Keeps(config, old(State()), State())
        invariant FilesFollow(old(State()), State())
      {
        var key := keys[i];
        ghost var d := State();
        DropOneMore(old(index), keys, i);
        if key in index {
          DropKeeps(config, d, key);
          var path := index[key].filePath;
          index := index - {key};
          files := files - {path};
          assert State() == Drop(d, key);
        } else {
          assert index - {key} == index;
        }
      }
      assert keys[..|keys|] == keys;
    }

    /** One round of the cleanup task. The counters it settles are its own, so those of the
        cache stay as they were. */
    method CleanupPass(now: nat)
      requires WellNamed(config) && Named(config, index)
      modifies this`files, this`index
      ensures Named(config, index) && Cleans(config, old(index), index, now)
      ensures SubMap(files, old(files)) && Keeps(config, old(State()), State())
      ensures FilesFollow(old(State()), State())
    {
      var currentEntries := |index|;
      var usage := SumSizes();
      var aged := Aged(index, now);
      var toRemove := Enumerate(aged);
      assert Elements(toRemove) == aged;
      if currentEntries > config.maxFiles || (config.maxDiskBytes.Some? && usage > config.maxDiskBytes.value) {
        var victims := LeastRecent(index - aged, Excess(config.maxFiles, currentEntries));
        RemoveListed(toRemove + victims);
        RemoveBoth(old(index), toRemove, victims);
      } else {
        RemoveListed(toRemove);
      }
    }

    method SumSizes() returns (total: nat)
      ensures total == Usage(index)
    {
      var keys := Enumerate(index.Keys);
      total := SumOver(keys, Sizes(index));
      SumOverIsTotal(keys, Sizes(index));
    }

    method SizeOp() returns (n: nat)
      requires Valid()
      ensures Apply(config, State(), Size) == (State(), Count(n))
    {
      n := if entryCount == 0 then |set p | p in files && Counted(p)| else entryCount;
    }
  }

  // ----- What the stamps of an entry say about the run -----

  /** What each operation writes into the entry of its key; no other entry changes. */
  lemma EntryAfter<K(!new)>(c: Config<K>, d: Disk<K>, op: Op<K>, k: K)
    requires k in Apply(c, d, op).0.index
    ensures var e := Apply(c, d, op).0.index[k];
            if op.Put? && op.key == k then
              e == Entry(FilePath(c, k), |op.value|, op.now, Some(op.now + op.ttl), op.now, 1)
            else if op.Get? && op.key == k && k in d.index then
              e == d.index[k].(lastAccessed := op.now, accessCount := d.index[k].accessCount + 1)
            else if op.Get? && op.key == k then
              FilePath(c, k) in d.files && e == Entry(FilePath(c, k), |d.files[FilePath(c, k)]|, op.born, None, op.now, 1)
            else k in d.index && e == d.index[k]
  {
  }

  ghost predicate DiskRun<K(!new)>(c: Config<K>, states: seq<Disk<K>>, ops: seq<Op<K>>) {
    && |states| == |ops| + 1 && states[0].index == map[]
    && forall i :: 0 <= i < |ops| ==> states[i + 1] == Apply(c, states[i], ops[i]).0
  }

  /** The time of the last put or hit of `k` in the first `n` steps. */
  ghost function LastUse<K>(c: Config<K>, states: seq<Disk<K>>, ops: seq<Op<K>>, n: nat, k: K): nat
    requires |states| == |ops| + 1 && n <= |ops|
  {
    if n == 0 then 0
    else
      var op, before := ops[n - 1], LastUse(c, states, ops, n - 1, k);
      match op
      case Put(j, _, _, now) => if j == k then now else before
      case Get(j, now, _, _) => if j == k && Apply(c, states[n - 1], op).1 !in {Bytes(None), Failed} then now else before
      case _ => before
  }

  lemma {:induction false} RunStamps<K(!new)>(c: Config<K>, states: seq<Disk<K>>, ops: seq<Op<K>>, n: nat, k: K)
    requires DiskRun(c, states, ops) && n <= |ops| && k in states[n].index
    ensures states[n].index[k].lastAccessed == LastUse(c, states, ops, n, k)
  {
    if n > 0 {
      assert states[n - 1 + 1] == Apply(c, states[n - 1], ops[n - 1]).0;
      EntryAfter(c, states[n - 1], ops[n - 1], k);
      if k in states[n - 1].index {
        RunStamps(c, states, ops, n - 1, k);
      }
    }
  }

  /** So in every run a pass evicts by the operations that went before: an entry it takes whose
      time had not come was put or read last no later than every entry it leaves. */
  lemma RunCleansByUse<K(!new)>(
    c: Config<K>, states: seq<Disk<K>>, ops: seq<Op<K>>, n: nat, now: nat, after: map<K, Entry>, v: K, u: K)
    requires DiskRun(c, states, ops) && n <= |ops| && Cleans(c, states[n].index, after, now)
    requires v in states[n].index && v !in after && !Outlived(states[n].index[v], now) && u in after
    ensures LastUse(c, states, ops, n, v) <= LastUse(c, states, ops, n, u)
  {
    CleanupMeans(c, states[n].index, after, now);
    RunStamps(c, states, ops, n, v);
    RunStamps(c, states, ops, n, u);
  }

  // ----- After a restart -----

  /** Removing a key hides it exactly when it is indexed or has no file: after a restart the
      index is empty, so a file left by the previous instance survives `remove`. */
  lemma RemoveHides<K(!new)>(c: Config<K>, d: Disk<K>, k: K, now: nat, born: nat)
    requires Named(c, d.index)
    ensures AfterGet(c, Apply(c, d, Remove(k)).0, k, now, born, true).1 == Bytes(None) <==>
              k in d.index || FilePath(c, k) !in d.files
  {
  }

  /** For every put: restart, remove the key, and it is still there. */
  lemma RestartUndoesRemove<K(!new)>(c: Config<K>, d: Disk<K>, k: K, value: Bytes, ttl: nat, now: nat, later: nat, born: nat)
    ensures var restarted: Disk<K> := Disk(AfterPut(c, d, k, value, ttl, now).files, map[]);
            AfterGet(c, Apply(c, restarted, Remove(k)).0, k, later, born, true).1 == Bytes(Some(value))
  {
  }

  /** No restart is needed: a read that fails on a live entry has the same effect. */
  lemma ReadErrorUndoesRemove<K(!new)>(
    c: Config<K>, d: Disk<K>, k: K, value: Bytes, ttl: nat, now: nat, later: nat, born: nat)
    requires ttl > 0
    ensures var (failed, answer) := AfterGet(c, AfterPut(c, d, k, value, ttl, now), k, now, born, false);
            var (removed, found) := Apply(c, failed, Remove(k));
            && answer == Failed && found == Bool(false)
            && AfterGet(c, removed, k, later, born, true).1 == Bytes(Some(value))
  {
  }

  /** A restart forgets expiry: what a put stored is returned at any later time, although
      the same instance would have let it lapse. */
  lemma RestartForgetsExpiry<K(!new)>(c: Config<K>, d: Disk<K>, k: K, value: Bytes, ttl: nat, now: nat, later: nat, born: nat)
    requires WellNamed(c) && c.good(k)
    ensures var e := AfterPut(c, d, k, value, ttl, now);
            && AfterGet(c, Disk(e.files, map[]), k, later, born, true).1 == Bytes(Some(value))
            && (AfterGet(c, e, k, later, born, true).1 == Bytes(None) <==> later >= now + ttl)
  {
    FilesAreDistinct(c, k, k);
  }

  // ----- The real keys -----

  /** Canonical keys whose text has no slash and does not end in `.tmp`. */
  predicate GoodKey(k: Keys.Key) {
    Keys.Canonical(k) && '/' !in Keys.Print(k) && !EndsInTmp(Keys.Print(k))
  }

  /** So the results above hold for the ten key types under their printer. */
  lemma KeysAreWellNamed(c: Config<Keys.Key>)
    requires c.text == Keys.Print && c.good == GoodKey
    ensures WellNamed(c)
  {
    forall j, k | c.good(j) && c.good(k) && c.text(j) == c.text(k) ensures j == k {
      Keys.CanonicalPrintsAreDistinct(j, k);
    }
  }

  /** The condition is needed: a key that is not canonical shares its file with another key. */
  lemma LookalikesShareAFile(c: Config<Keys.Key>, k: Keys.Key) returns (other: Keys.Key)
    requires c.text == Keys.Print && !Keys.Canonical(k)
    ensures other != k && FilePath(c, other) == FilePath(c, k)
  {
    other := Keys.CanonicalTwin(k);
  }
}

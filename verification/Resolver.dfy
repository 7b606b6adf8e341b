/** Content resolution: path to content key through the root file, content key to encoding
    key through the encoding file, each behind a cache map. */
module Resolver {
  import opened Common

  type ContentKey = seq<byte>
  type EncodingKey = seq<byte>

  datatype Record = Record(fileDataId: nat, contentKey: ContentKey, nameHash: Option<nat>)
  type RootFile = seq<seq<Record>>

  datatype Mapping = Mapping(contentKey: ContentKey, encodingKeys: seq<EncodingKey>)
  type EncodingFile = seq<seq<Mapping>>

  // ----- The uncached scans -----

  function Flatten<T>(pages: seq<seq<T>>): seq<T> {
    if pages == [] then [] else pages[0] + Flatten(pages[1..])
  }

  lemma {:induction false} FlattenPrefix<T>(pages: seq<seq<T>>, n: nat)
    requires n < |pages|
    ensures Flatten(pages[..n + 1]) == Flatten(pages[..n]) + pages[n]
  {
    if n == 0 {
      assert pages[..1][1..] == [];
      assert Flatten(pages[..1]) == pages[0] + Flatten<T>([]) == pages[0];
    } else {
      assert pages[..n + 1][1..] == pages[1..][..n] && pages[..n][1..] == pages[1..][..n - 1];
      FlattenPrefix(pages[1..], n - 1);
    }
  }

  lemma FlattenOne<T>(page: seq<T>)
    ensures Flatten([page]) == page
  {
    assert [page][1..] == [];
    assert Flatten([page]) == page + Flatten<T>([]);
  }

  /** The content key of the first record with this name hash. */
  function FindByHash(records: seq<Record>, hash: nat): Option<ContentKey> {
    if records == [] then None
    else if records[0].nameHash == Some(hash) then Some(records[0].contentKey)
    else FindByHash(records[1..], hash)
  }

  lemma {:induction false} FindByHashIsFirst(records: seq<Record>, hash: nat) returns (i: nat)
    ensures i <= |records| && forall j :: 0 <= j < i ==> records[j].nameHash != Some(hash)
    ensures if i == |records| then FindByHash(records, hash) == None
            else records[i].nameHash == Some(hash) && FindByHash(records, hash) == Some(records[i].contentKey)
  {
    if records == [] || records[0].nameHash == Some(hash) {
      i := 0;
    } else {
      var rest := FindByHashIsFirst(records[1..], hash);
      i := rest + 1;
      assert forall j :: 0 < j < i ==> records[j] == records[1..][j - 1];
    }
  }

  /** The primary encoding key of the first mapping of a content key that has one. */
  function FindEncoding(mappings: seq<Mapping>, key: ContentKey): Option<EncodingKey> {
    if mappings == [] then None
    else if mappings[0].contentKey == key && mappings[0].encodingKeys != [] then Some(mappings[0].encodingKeys[0])
    else FindEncoding(mappings[1..], key)
  }

  /** What loading leaves in the content cache: a later mapping overwrites an earlier one. */
  ghost function Fill(cache: map<ContentKey, EncodingKey>, mappings: seq<Mapping>): map<ContentKey, EncodingKey> {
    if mappings == [] then cache
    else
      var front, last := mappings[..|mappings| - 1], mappings[|mappings| - 1];
      if last.encodingKeys != [] then Fill(cache, front)[last.contentKey := last.encodingKeys[0]] else Fill(cache, front)
  }

  ghost function Table(mappings: seq<Mapping>): map<ContentKey, EncodingKey> {
    Fill(map[], mappings)
  }

  /** What loading a root file leaves in the table of file data ids. */
  ghost function Enter(ids: map<nat, ContentKey>, records: seq<Record>): map<nat, ContentKey> {
    if records == [] then ids
    else
      var front, last := records[..|records| - 1], records[|records| - 1];
      Enter(ids, front)[last.fileDataId := last.contentKey]
  }

  function Lookup<K, V>(table: map<K, V>, key: K): Option<V> {
    if key in table then Some(table[key]) else None
  }

  ghost predicate Usable(mappings: seq<Mapping>, i: int, key: ContentKey) {
    0 <= i < |mappings| && mappings[i].contentKey == key && mappings[i].encodingKeys != []
  }

  ghost predicate IsFirst(mappings: seq<Mapping>, i: int, key: ContentKey) {
    Usable(mappings, i, key) && forall j :: 0 <= j < i ==> !Usable(mappings, j, key)
  }

  ghost predicate IsLast(mappings: seq<Mapping>, i: int, key: ContentKey) {
    Usable(mappings, i, key) && forall j :: i < j < |mappings| ==> !Usable(mappings, j, key)
  }

  /** The first and the last usable mapping of the key name the same primary encoding key. */
  ghost predicate EndsAgree(mappings: seq<Mapping>, key: ContentKey) {
    forall i, j :: IsFirst(mappings, i, key) && IsLast(mappings, j, key) ==>
      mappings[i].encodingKeys[0] == mappings[j].encodingKeys[0]
  }

  ghost predicate Agreeing(mappings: seq<Mapping>) {
    forall key :: EndsAgree(mappings, key)
  }

  lemma {:induction false} FindEncodingIsFirst(mappings: seq<Mapping>, key: ContentKey) returns (i: nat)
    ensures forall j :: 0 <= j < i ==> !Usable(mappings, j, key)
    ensures i <= |mappings|
    ensures if i == |mappings| then FindEncoding(mappings, key) == None
            else Usable(mappings, i, key) && FindEncoding(mappings, key) == Some(mappings[i].encodingKeys[0])
  {
    if mappings == [] || Usable(mappings, 0, key) {
      i := 0;
    } else {
      i := FindEncodingIsFirst(mappings[1..], key);
      forall j | 0 <= j < i + 1 ensures !Usable(mappings, j, key) {
        assert j > 0 ==> !Usable(mappings[1..], j - 1, key);
      }
      i := i + 1;
    }
  }

  lemma {:induction false} TableIsLast(mappings: seq<Mapping>, key: ContentKey) returns (i: int)
    ensures -1 <= i < |mappings|
    ensures forall j :: i < j < |mappings| ==> !Usable(mappings, j, key)
    ensures if i == -1 then key !in Table(mappings)
            else Usable(mappings, i, key) && key in Table(mappings) && Table(mappings)[key] == mappings[i].encodingKeys[0]
  {
    if mappings == [] {
      i := -1;
    } else {
      var n := |mappings| - 1;
      if Usable(mappings, n, key) {
        i := n;
      } else {
        i := TableIsLast(mappings[..n], key);
        forall j | i < j < |mappings| ensures !Usable(mappings, j, key) {
          assert j < n ==> !Usable(mappings[..n], j, key);
        }
      }
    }
  }

  lemma FirstAndLast(mappings: seq<Mapping>, key: ContentKey) returns (first: nat, last: int)
    ensures FindEncoding(mappings, key).Some? <==> key in Table(mappings)
    ensures key in Table(mappings) ==>
              && IsFirst(mappings, first, key) && FindEncoding(mappings, key) == Some(mappings[first].encodingKeys[0])
              && IsLast(mappings, last, key) && Table(mappings)[key] == mappings[last].encodingKeys[0]
  {
    first := FindEncodingIsFirst(mappings, key);
    last := TableIsLast(mappings, key);
    assert first < |mappings| ==> Usable(mappings, first, key);
  }

  ghost predicate RightAt(mappings: seq<Mapping>, key: ContentKey) {
    FindEncoding(mappings, key) == Lookup(Table(mappings), key)
  }

  lemma RightAtIffEndsAgree(mappings: seq<Mapping>, key: ContentKey)
    ensures RightAt(mappings, key) <==> EndsAgree(mappings, key)
  {
    var first, last := FirstAndLast(mappings, key);
    var found := FindEncodingIsFirst(mappings, key);
    forall i, j | IsFirst(mappings, i, key) && IsLast(mappings, j, key)
      ensures i == first && j == last && key in Table(mappings)
    {
      assert Usable(mappings, i, key);
    }
  }

  /** The table filled on loading answers every key as the scan does exactly when the first
      and the last usable mapping of each key agree. */
  lemma TableAgreesWithScan(mappings: seq<Mapping>)
    ensures (forall key :: RightAt(mappings, key)) <==> Agreeing(mappings)
  {
    forall key: ContentKey ensures RightAt(mappings, key) <==> EndsAgree(mappings, key) {
      RightAtIffEndsAgree(mappings, key);
    }
  }

  lemma DistinctKeysAgree(mappings: seq<Mapping>)
    requires DistinctKeys(mappings)
    ensures Agreeing(mappings)
  {
  }

  // ----- The cached machine and the uncached reference -----

  datatype State = State(
    root: Option<RootFile>,
    encoding: Option<EncodingFile>,
    paths: map<string, ContentKey>,
    contents: map<ContentKey, EncodingKey>,
    ids: map<nat, ContentKey>)

  datatype Op =
    | LoadRoot(rootFile: Option<RootFile>)          // None: the bytes do not parse
    | LoadEncoding(encodingFile: Option<EncodingFile>)
    | ResolvePath(path: string)
    | ResolveContentKey(key: ContentKey)
    | ResolveFileDataId(id: nat)
    | ResolvePathToEncoding(path: string)
    | ResolveIdToEncoding(id: nat)
    | ClearCaches

  datatype Answer = Done(ok: bool) | Content(contentKey: Option<ContentKey>) | Encoding(encodingKey: Option<EncodingKey>)

  const EMPTY := State(None, None, map[], map[], map[])

  function ScanPath(nameHash: string -> nat, root: Option<RootFile>, path: string): Option<ContentKey> {
    if root.None? then None else FindByHash(Flatten(root.value), nameHash(path))
  }

  function ScanKey(encoding: Option<EncodingFile>, key: ContentKey): Option<EncodingKey> {
    if encoding.None? then None else FindEncoding(Flatten(encoding.value), key)
  }

  function PathOf(nameHash: string -> nat, s: State, path: string): Option<ContentKey> {
    if path in s.paths then Some(s.paths[path]) else ScanPath(nameHash, s.root, path)
  }

  function AfterPath(nameHash: string -> nat, s: State, path: string): State {
    var r := PathOf(nameHash, s, path);
    if r.Some? then s.(paths := s.paths[path := r.value]) else s
  }

  function KeyOf(s: State, key: ContentKey): Option<EncodingKey> {
    if key in s.contents then Some(s.contents[key]) else ScanKey(s.encoding, key)
  }

  function AfterKey(s: State, key: ContentKey): State {
    var r := KeyOf(s, key);
    if r.Some? then s.(contents := s.contents[key := r.value]) else s
  }

  ghost function Apply(nameHash: string -> nat, s: State, op: Op): (State, Answer) {
    match op
    case LoadRoot(file) =>
      if file.None? then (s, Done(false))
      else (s.(root := file, ids := Enter(s.ids, Flatten(file.value))), Done(true))
    case LoadEncoding(file) =>
      if file.None? then (s, Done(false))
      else (s.(encoding := file, contents := Fill(s.contents, Flatten(file.value))), Done(true))
    case ResolvePath(path) => (AfterPath(nameHash, s, path), Content(PathOf(nameHash, s, path)))
    case ResolveContentKey(key) => (AfterKey(s, key), Encoding(KeyOf(s, key)))
    case ResolveFileDataId(id) => (s, Content(Lookup(s.ids, id)))
    case ResolvePathToEncoding(path) =>
      var r, t := PathOf(nameHash, s, path), AfterPath(nameHash, s, path);
      if r.None? then (t, Encoding(None)) else (AfterKey(t, r.value), Encoding(KeyOf(t, r.value)))
    case ResolveIdToEncoding(id) =>
      var r := Lookup(s.ids, id);
      if r.None? then (s, Encoding(None)) else (AfterKey(s, r.value), Encoding(KeyOf(s, r.value)))
    case ClearCaches => (s.(paths := map[], contents := map[], ids := map[]), Done(true))
  }

  /** The machine without caches: the two loaded files, and the root file whose ids are
      known (a clear forgets it, because only loading fills the id table). */
  datatype Files = Files(root: Option<RootFile>, encoding: Option<EncodingFile>, idRoot: Option<RootFile>)

  ghost function ScanId(f: Files, id: nat): Option<ContentKey> {
    if f.idRoot.None? then None else Lookup(Enter(map[], Flatten(f.idRoot.value)), id)
  }

  ghost function Reference(nameHash: string -> nat, f: Files, op: Op): (Files, Answer) {
    match op
    case LoadRoot(file) => if file.None? then (f, Done(false)) else (f.(root := file, idRoot := file), Done(true))
    case LoadEncoding(file) => if file.None? then (f, Done(false)) else (f.(encoding := file), Done(true))
    case ResolvePath(path) => (f, Content(ScanPath(nameHash, f.root, path)))
    case ResolveContentKey(key) => (f, Encoding(ScanKey(f.encoding, key)))
    case ResolveFileDataId(id) => (f, Content(ScanId(f, id)))
    case ResolvePathToEncoding(path) =>
      var r := ScanPath(nameHash, f.root, path);
      (f, Encoding(if r.None? then None else ScanKey(f.encoding, r.value)))
    case ResolveIdToEncoding(id) =>
      var r := ScanId(f, id);
      (f, Encoding(if r.None? then None else ScanKey(f.encoding, r.value)))
    case ClearCaches => (f.(idRoot := None), Done(true))
  }

  ghost predicate PathsCoherent(nameHash: string -> nat, s: State) {
    forall path :: path in s.paths ==> ScanPath(nameHash, s.root, path) == Some(s.paths[path])
  }

  ghost predicate KeysCoherent(s: State) {
    forall key :: key in s.contents ==> ScanKey(s.encoding, key) == Some(s.contents[key])
  }

  ghost predicate Refines(nameHash: string -> nat, s: State, f: Files) {
    && s.root == f.root && s.encoding == f.encoding
    && PathsCoherent(nameHash, s) && KeysCoherent(s)
    && s.ids == if f.idRoot.None? then map[] else Enter(map[], Flatten(f.idRoot.value))
  }

  ghost predicate Lists(records: seq<Record>, id: nat) {
    exists i :: 0 <= i < |records| && records[i].fileDataId == id
  }

  /** When a load is safe, from what is cached and what the file says: a root file keeps the
      content key of every cached path and lists every cached id; an encoding file's repeated
      keys agree and it has every cached content key. */
  ghost predicate Careful(nameHash: string -> nat, s: State, op: Op) {
    match op
    case LoadRoot(file) =>
      file.Some? ==>
        && (forall path :: path in s.paths ==> ScanPath(nameHash, file, path) == Some(s.paths[path]))
        && (forall id :: id in s.ids ==> Lists(Flatten(file.value), id))
    case LoadEncoding(file) =>
      file.Some? ==>
        && Agreeing(Flatten(file.value))
        && (forall key :: key in s.contents ==> ScanKey(file, key).Some?)
    case _ => true
  }

  lemma AfterKeyRefines(nameHash: string -> nat, s: State, f: Files, key: ContentKey)
    requires Refines(nameHash, s, f)
    ensures Refines(nameHash, AfterKey(s, key), f) && KeyOf(s, key) == ScanKey(f.encoding, key)
  {
    assert PathsCoherent(nameHash, AfterKey(s, key));
  }

  lemma AfterPathRefines(nameHash: string -> nat, s: State, f: Files, path: string)
    requires Refines(nameHash, s, f)
    ensures Refines(nameHash, AfterPath(nameHash, s, path), f) && PathOf(nameHash, s, path) == ScanPath(nameHash, f.root, path)
  {
    assert KeysCoherent(AfterPath(nameHash, s, path));
  }

  /** Filling puts the file's table over what was there. */
  lemma {:induction false} FillOverlays(cache: map<ContentKey, EncodingKey>, mappings: seq<Mapping>, key: ContentKey)
    ensures Lookup(Fill(cache, mappings), key) ==
            if key in Table(mappings) then Some(Table(mappings)[key]) else Lookup(cache, key)
  {
    if mappings != [] {
      FillOverlays(cache, mappings[..|mappings| - 1], key);
    }
  }

  /** The file data id of a table entry is its last record's. */
  lemma {:induction false} EnterIsLast(ids: map<nat, ContentKey>, records: seq<Record>, id: nat) returns (i: int)
    ensures -1 <= i < |records|
    ensures forall j :: i < j < |records| ==> records[j].fileDataId != id
    ensures if i == -1 then Lookup(Enter(ids, records), id) == Lookup(ids, id)
            else records[i].fileDataId == id && Lookup(Enter(ids, records), id) == Some(records[i].contentKey)
  {
    if records == [] {
      i := -1;
    } else {
      var n := |records| - 1;
      if records[n].fileDataId == id {
        i := n;
      } else {
        i := EnterIsLast(ids, records[..n], id);
        assert forall j :: 0 <= j < n ==> records[..n][j] == records[j];
      }
    }
  }

  /** Loading an encoding file, over whatever is cached, leaves the content cache right exactly
      when the file's repeated keys agree and the file has every cached key. */
  lemma LoadKeepsKeysCoherent(s: State, file: EncodingFile)
    ensures KeysCoherent(s.(encoding := Some(file), contents := Fill(s.contents, Flatten(file)))) <==>
              Agreeing(Flatten(file)) && forall key :: key in s.contents ==> ScanKey(Some(file), key).Some?
  {
    var all := Flatten(file);
    var t := s.(encoding := Some(file), contents := Fill(s.contents, all));
    TableAgreesWithScan(all);
    forall key: ContentKey
      ensures (key in t.contents ==> ScanKey(t.encoding, key) == Some(t.contents[key])) <==>
                RightAt(all, key) && (key in s.contents ==> ScanKey(Some(file), key).Some?)
    {
      FillOverlays(s.contents, all, key);
      var first, last := FirstAndLast(all, key);
    }
    if KeysCoherent(t) {
      assert forall key :: RightAt(all, key);
    }
  }

  /** Entering ids over others gives the file's own table exactly when the file lists them all. */
  lemma EnterIsFresh(ids: map<nat, ContentKey>, records: seq<Record>)
    ensures Enter(ids, records) == Enter(map[], records) <==> forall id :: id in ids ==> Lists(records, id)
  {
    forall id: nat
      ensures Lookup(Enter(ids, records), id) == Lookup(Enter(map[], records), id) <==> (id in ids ==> Lists(records, id))
    {
      var i := EnterIsLast(ids, records, id);
      var j := EnterIsLast(map[], records, id);
    }
    if forall id :: id in ids ==> Lists(records, id) {
      SameLookups(Enter(ids, records), Enter(map[], records));
    }
  }

  lemma SameLookups<K, V>(a: map<K, V>, b: map<K, V>)
    requires forall k :: Lookup(a, k) == Lookup(b, k)
    ensures a == b
  {
    assert forall k :: k in a ==> Lookup(a, k) == Lookup(b, k);
    assert forall k :: k in b ==> Lookup(a, k) == Lookup(b, k);
  }

  /** A load leaves the caches right exactly when it is careful. */
  lemma LoadRefines(nameHash: string -> nat, s: State, f: Files, op: Op)
    requires Refines(nameHash, s, f) && (op.LoadRoot? || op.LoadEncoding?)
    ensures Refines(nameHash, Apply(nameHash, s, op).0, Reference(nameHash, f, op).0) <==> Careful(nameHash, s, op)
  {
    match op
    case LoadRoot(file) =>
      if file.Some? {
        EnterIsFresh(s.ids, Flatten(file.value));
      }
    case LoadEncoding(file) =>
      if file.Some? {
        LoadKeepsKeysCoherent(s, file.value);
      }
  }

  /** The caches are right exactly when no lookup can tell them from the files. */
  lemma RefinesIsInvisible(nameHash: string -> nat, s: State, f: Files)
    requires s.root == f.root && s.encoding == f.encoding
    ensures Refines(nameHash, s, f) <==>
              && (forall path :: PathOf(nameHash, s, path) == ScanPath(nameHash, f.root, path))
              && (forall key :: KeyOf(s, key) == ScanKey(f.encoding, key))
              && (forall id :: Lookup(s.ids, id) == ScanId(f, id))
  {
    if forall path :: PathOf(nameHash, s, path) == ScanPath(nameHash, f.root, path) {
      assert forall path :: path in s.paths ==> PathOf(nameHash, s, path) == ScanPath(nameHash, f.root, path);
    }
    if forall key :: KeyOf(s, key) == ScanKey(f.encoding, key) {
      assert forall key :: key in s.contents ==> KeyOf(s, key) == ScanKey(f.encoding, key);
    }
    if forall id :: Lookup(s.ids, id) == ScanId(f, id) {
      var own := if f.idRoot.None? then map[] else Enter(map[], Flatten(f.idRoot.value));
      forall id: nat ensures Lookup(s.ids, id) == Lookup(own, id) {
        assert Lookup(s.ids, id) == ScanId(f, id);
      }
      SameLookups(s.ids, own);
    }
  }

  /** So after a load every lookup answers from the loaded files if and only if the load was
      careful; a careless one shows in some lookup. */
  lemma LoadIsInvisible(nameHash: string -> nat, s: State, f: Files, op: Op)
    requires Refines(nameHash, s, f) && (op.LoadRoot? || op.LoadEncoding?)
    ensures var t, g := Apply(nameHash, s, op).0, Reference(nameHash, f, op).0;
            Careful(nameHash, s, op) <==>
              && (forall path :: PathOf(nameHash, t, path) == ScanPath(nameHash, g.root, path))
              && (forall key :: KeyOf(t, key) == ScanKey(g.encoding, key))
              && (forall id :: Lookup(t.ids, id) == ScanId(g, id))
  {
    LoadRefines(nameHash, s, f, op);
    RefinesIsInvisible(nameHash, Apply(nameHash, s, op).0, Reference(nameHash, f, op).0);
  }

  /** Clearing makes every later root file safe to load, and an encoding file exactly when its
      repeated keys agree; but no file data id resolves until then. */
  lemma ClearMakesLoadSafe(nameHash: string -> nat, s: State, op: Op, id: nat)
    ensures var t := Apply(nameHash, s, ClearCaches).0;
            && (op.LoadRoot? ==> Careful(nameHash, t, op))
            && (op.LoadEncoding? && op.encodingFile.Some? ==>
                  (Careful(nameHash, t, op) <==> Agreeing(Flatten(op.encodingFile.value))))
            && Apply(nameHash, t, ResolveFileDataId(id)).1 == Content(None)
            && t.root == s.root && t.encoding == s.encoding
  {
  }

  lemma StepRefines(nameHash: string -> nat, s: State, f: Files, op: Op)
    requires Refines(nameHash, s, f) && Careful(nameHash, s, op)
    ensures Apply(nameHash, s, op).1 == Reference(nameHash, f, op).1
    ensures Refines(nameHash, Apply(nameHash, s, op).0, Reference(nameHash, f, op).0)
  {
    match op
    case LoadRoot(file) => LoadRefines(nameHash, s, f, op);
    case LoadEncoding(file) => LoadRefines(nameHash, s, f, op);
    case ResolvePath(path) => AfterPathRefines(nameHash, s, f, path);
    case ResolveContentKey(key) => AfterKeyRefines(nameHash, s, f, key);
    case ResolveFileDataId(id) =>
    case ResolvePathToEncoding(path) =>
      AfterPathRefines(nameHash, s, f, path);
      var r := PathOf(nameHash, s, path);
      if r.Some? {
        AfterKeyRefines(nameHash, AfterPath(nameHash, s, path), f, r.value);
      }
    case ResolveIdToEncoding(id) =>
      if id in s.ids {
        AfterKeyRefines(nameHash, s, f, s.ids[id]);
      }
    case ClearCaches =>
  }

  ghost function RunCached(nameHash: string -> nat, s: State, ops: seq<Op>): seq<Answer>
    decreases |ops|
  {
    if ops == [] then []
    else
      var (t, answer) := Apply(nameHash, s, ops[0]);
      [answer] + RunCached(nameHash, t, ops[1..])
  }

  ghost function RunReference(nameHash: string -> nat, f: Files, ops: seq<Op>): seq<Answer>
    decreases |ops|
  {
    if ops == [] then []
    else
      var (g, answer) := Reference(nameHash, f, ops[0]);
      [answer] + RunReference(nameHash, g, ops[1..])
  }

  ghost predicate CarefulRun(nameHash: string -> nat, s: State, ops: seq<Op>)
    decreases |ops|
  {
    ops == [] || (Careful(nameHash, s, ops[0]) && CarefulRun(nameHash, Apply(nameHash, s, ops[0]).0, ops[1..]))
  }

  lemma {:induction false} RunRefines(nameHash: string -> nat, s: State, f: Files, ops: seq<Op>)
    requires Refines(nameHash, s, f) && CarefulRun(nameHash, s, ops)
    ensures RunCached(nameHash, s, ops) == RunReference(nameHash, f, ops)
    decreases |ops|
  {
    if ops != [] {
      StepRefines(nameHash, s, f, ops[0]);
      RunRefines(nameHash, Apply(nameHash, s, ops[0]).0, Reference(nameHash, f, ops[0]).0, ops[1..]);
    }
  }

  /** Caching is invisible: every run of a new resolver whose loads are careful, reloads
      included, answers operation by operation as the machine that scans the files each time. */
  lemma CachingIsInvisible(nameHash: string -> nat, ops: seq<Op>)
    requires CarefulRun(nameHash, EMPTY, ops)
    ensures RunCached(nameHash, EMPTY, ops) == RunReference(nameHash, Files(None, None, None), ops)
  {
    RunRefines(nameHash, EMPTY, Files(None, None, None), ops);
  }

  ghost predicate LoadsRoot(op: Op) {
    op.LoadRoot? && op.rootFile.Some?
  }

  ghost predicate LoadsEncoding(op: Op) {
    op.LoadEncoding? && op.encodingFile.Some?
  }

  ghost predicate DistinctKeys(mappings: seq<Mapping>) {
    forall i, j :: 0 <= i < j < |mappings| ==> mappings[i].contentKey != mappings[j].contentKey
  }

  /** Each kind of file is loaded at most once, the encoding file with distinct content keys. */
  ghost predicate LoadsOnce(ops: seq<Op>) {
    && (forall i, j :: 0 <= i < j < |ops| ==> !(LoadsRoot(ops[i]) && LoadsRoot(ops[j])))
    && (forall i, j :: 0 <= i < j < |ops| ==> !(LoadsEncoding(ops[i]) && LoadsEncoding(ops[j])))
    && (forall i :: 0 <= i < |ops| && LoadsEncoding(ops[i]) ==> DistinctKeys(Flatten(ops[i].encodingFile.value)))
  }

  /** Nothing is cached of a file that was never loaded. */
  ghost predicate NothingInvented(s: State) {
    && (s.root.None? ==> s.paths == map[] && s.ids == map[])
    && (s.encoding.None? ==> s.contents == map[])
  }

  lemma {:induction false} LoadsOnceIsCareful(nameHash: string -> nat, s: State, ops: seq<Op>)
    requires NothingInvented(s) && LoadsOnce(ops)
    requires s.root.Some? ==> forall i :: 0 <= i < |ops| ==> !LoadsRoot(ops[i])
    requires s.encoding.Some? ==> forall i :: 0 <= i < |ops| ==> !LoadsEncoding(ops[i])
    ensures CarefulRun(nameHash, s, ops)
    decreases |ops|
  {
    if ops != [] {
      var op, t := ops[0], Apply(nameHash, s, ops[0]).0;
      assert LoadsRoot(op) ==> s.root.None?;
      assert LoadsEncoding(op) ==> s.encoding.None?;
      if LoadsEncoding(op) {
        DistinctKeysAgree(Flatten(op.encodingFile.value));
      }
      assert NothingInvented(t) && (t.root.Some? ==> s.root.Some? || LoadsRoot(op));
      assert t.encoding.Some? ==> s.encoding.Some? || LoadsEncoding(op);
      LoadsOnceIsCareful(nameHash, t, ops[1..]);
    }
  }

  /** One load of each file, then any lookups and clears in any order: path, content-key and
      path-to-encoding resolution answer as the uncached scans do. */
  lemma OneLoadEach(nameHash: string -> nat, ops: seq<Op>)
    requires LoadsOnce(ops)
    ensures RunCached(nameHash, EMPTY, ops) == RunReference(nameHash, Files(None, None, None), ops)
  {
    LoadsOnceIsCareful(nameHash, EMPTY, ops);
    CachingIsInvisible(nameHash, ops);
  }

  /** A second root file does not reach the path cache: a path resolved before it is loaded
      keeps its old content key, whatever the new file says, until the caches are cleared. */
  lemma ReloadLeavesStalePath(nameHash: string -> nat, s: State, path: string, file: RootFile)
    requires ScanPath(nameHash, s.root, path).Some? && path !in s.paths
    ensures
      var loaded := Apply(nameHash, Apply(nameHash, s, ResolvePath(path)).0, LoadRoot(Some(file))).0;
      var cleared := Apply(nameHash, loaded, ClearCaches).0;
      && Apply(nameHash, loaded, ResolvePath(path)).1 == Content(ScanPath(nameHash, s.root, path))
      && Apply(nameHash, cleared, ResolvePath(path)).1 == Content(ScanPath(nameHash, Some(file), path))
  {
    var resolved := AfterPath(nameHash, s, path);
    assert path in resolved.paths;
  }

  /** For example two root files that differ in the content key of one path: after loading
      both, with a lookup in between, the path still resolves to the first file's key. */
  lemma ReloadGoesStale(nameHash: string -> nat, path: string) returns (s: State, f: Files, op: Op)
    ensures Refines(nameHash, s, f) && LoadsRoot(op) && !Careful(nameHash, s, op)
    ensures var t, g := Apply(nameHash, s, op).0, Reference(nameHash, f, op).0;
            Apply(nameHash, t, ResolvePath(path)).1 != Reference(nameHash, g, ResolvePath(path)).1
  {
    var first, second := [Record(7, [1], Some(nameHash(path)))], [Record(7, [2], Some(nameHash(path)))];
    FlattenOne(first);
    FlattenOne(second);
    s := State(Some([first]), None, map[path := [1]], map[], Enter(map[], first));
    f := Files(Some([first]), None, Some([first]));
    op := LoadRoot(Some([second]));
    assert ScanPath(nameHash, Some([first]), path) == Some([1]);
    assert ScanPath(nameHash, Some([second]), path) == Some([2]);
  }

  // ----- The resolver -----

  class ContentResolver {
    /** The 64-bit name hash of a path, computed elsewhere. */
    const nameHash: string -> nat
    var rootFile: Option<RootFile>
    var encodingFile: Option<EncodingFile>
    var pathCache: map<string, ContentKey>
    var contentCache: map<ContentKey, EncodingKey>
    var fileDataIds: map<nat, ContentKey>

    ghost function Now(): State
      reads this
    {
      State(rootFile, encodingFile, pathCache, contentCache, fileDataIds)
    }

    constructor (nameHash: string -> nat)
      ensures Now() == EMPTY && this.nameHash == nameHash
    {
      this.nameHash := nameHash;
      rootFile, encodingFile := None, None;
      pathCache, contentCache, fileDataIds := map[], map[], map[];
    }

    /** Load a root file; bytes that do not parse change nothing. */
    method LoadRootFile(parsed: Option<RootFile>) returns (ok: bool)
      modifies this`rootFile, this`fileDataIds
      ensures (Now(), Done(ok)) == Apply(nameHash, old(Now()), LoadRoot(parsed))
    {
      if parsed.None? {
        return false;
      }
      RecordIds(parsed.value);
      rootFile := parsed;
      ok := true;
    }

    method RecordIds(root: RootFile)
      modifies this`fileDataIds
      ensures fileDataIds == Enter(old(fileDataIds), Flatten(root))
    {
      for i := 0 to |root|
        invariant fileDataIds == Enter(old(fileDataIds), Flatten(root[..i]))
      {
        FlattenPrefix(root, i);
        RecordBlock(root[i], old(fileDataIds), Flatten(root[..i]));
      }
      assert root[..|root|] == root;
    }

    method RecordBlock(block: seq<Record>, ghost start: map<nat, ContentKey>, ghost before: seq<Record>)
      requires fileDataIds == Enter(start, before)
      modifies this`fileDataIds
      ensures fileDataIds == Enter(start, before + block)
    {
      assert before + block[..0] == before;
      for j := 0 to |block|
        invariant fileDataIds == Enter(start, before + block[..j])
      {
        EnterAppend(start, before, block, j);
        fileDataIds := fileDataIds[block[j].fileDataId := block[j].contentKey];
      }
      assert block[..|block|] == block;
    }

    /** Load an encoding file and fill the content cache from it. */
    method LoadEncodingFile(parsed: Option<EncodingFile>) returns (ok: bool)
      modifies this`encodingFile, this`contentCache
      ensures (Now(), Done(ok)) == Apply(nameHash, old(Now()), LoadEncoding(parsed))
    {
      if parsed.None? {
        return false;
      }
      CachePages(parsed.value);
      encodingFile := parsed;
      ok := true;
    }

    method CachePages(encoding: EncodingFile)
      modifies this`contentCache
      ensures contentCache == Fill(old(contentCache), Flatten(encoding))
    {
      for i := 0 to |encoding|
        invariant contentCache == Fill(old(contentCache), Flatten(encoding[..i]))
      {
        FlattenPrefix(encoding, i);
        CachePage(encoding[i], old(contentCache), Flatten(encoding[..i]));
      }
      assert encoding[..|encoding|] == encoding;
    }

    method CachePage(page: seq<Mapping>, ghost start: map<ContentKey, EncodingKey>, ghost before: seq<Mapping>)
      requires contentCache == Fill(start, before)
      modifies this`contentCache
      ensures contentCache == Fill(start, before + page)
    {
      assert before + page[..0] == before;
      for j := 0 to |page|
        invariant contentCache == Fill(start, before + page[..j])
      {
        FillAppend(start, before, page, j);
        if page[j].encodingKeys != [] {
          contentCache := contentCache[page[j].contentKey := page[j].encodingKeys[0]];
        }
      }
      assert page[..|page|] == page;
    }

    method Resolve(path: string) returns (r: Option<ContentKey>)
      modifies this
      ensures (Now(), Content(r)) == Apply(nameHash, old(Now()), ResolvePath(path))
    {
      if path in pathCache {
        assert pathCache == pathCache[path := pathCache[path]];
        return Some(pathCache[path]);
      }
      r := if rootFile.None? then None else FindByHash(Flatten(rootFile.value), nameHash(path));
      if r.Some? {
        pathCache := pathCache[path := r.value];
      }
    }

    method ResolveKey(key: ContentKey) returns (r: Option<EncodingKey>)
      modifies this
      ensures (Now(), Encoding(r)) == Apply(nameHash, old(Now()), ResolveContentKey(key))
    {
      if key in contentCache {
        assert contentCache == contentCache[key := contentCache[key]];
        return Some(contentCache[key]);
      }
      if encodingFile.None? {
        return None;
      }
      r := ScanPages(encodingFile.value, key);
      if r.Some? {
        contentCache := contentCache[key := r.value];
      }
    }

    method ResolveId(id: nat) returns (r: Option<ContentKey>)
      ensures (Now(), Content(r)) == Apply(nameHash, Now(), ResolveFileDataId(id))
    {
      r := Lookup(fileDataIds, id);
    }

    method PathToEncoding(path: string) returns (r: Option<EncodingKey>)
      modifies this
      ensures (Now(), Encoding(r)) == Apply(nameHash, old(Now()), ResolvePathToEncoding(path))
    {
      var contentKey := Resolve(path);
      if contentKey.None? {
        return None;
      }
      r := ResolveKey(contentKey.value);
    }

    method IdToEncoding(id: nat) returns (r: Option<EncodingKey>)
      modifies this
      ensures (Now(), Encoding(r)) == Apply(nameHash, old(Now()), ResolveIdToEncoding(id))
    {
      var contentKey := ResolveId(id);
      if contentKey.None? {
        return None;
      }
      r := ResolveKey(contentKey.value);
    }

    method Clear()
      modifies this
      ensures Now() == Apply(nameHash, old(Now()), ClearCaches).0
    {
      pathCache, contentCache, fileDataIds := map[], map[], map[];
    }
  }

  /** The nested search through the pages, returning at the first usable entry of the key. */
  method ScanPages(pages: EncodingFile, key: ContentKey) returns (r: Option<EncodingKey>)
    ensures r == FindEncoding(Flatten(pages), key)
  {
    for i := 0 to |pages|
      invariant FindEncoding(Flatten(pages[..i]), key) == None
    {
      FlattenPrefix(pages, i);
      ghost var before := Flatten(pages[..i]);
      assert before + pages[i][..0] == before;
      for j := 0 to |pages[i]|
        invariant FindEncoding(before + pages[i][..j], key) == None
      {
        var entry := pages[i][j];
        FindEncodingAppend(before + pages[i][..j], [entry], key);
        assert before + pages[i][..j + 1] == before + pages[i][..j] + [entry];
        if entry.contentKey == key && entry.encodingKeys != [] {
          FoundInPrefix(pages, i, j, key);
          return Some(entry.encodingKeys[0]);
        }
      }
      assert pages[i][..|pages[i]|] == pages[i];
    }
    assert pages[..|pages|] == pages;
    r := None;
  }

  lemma EnterAppend(ids: map<nat, ContentKey>, before: seq<Record>, block: seq<Record>, j: nat)
    requires j < |block|
    ensures Enter(ids, before + block[..j + 1]) == Enter(ids, before + block[..j])[block[j].fileDataId := block[j].contentKey]
  {
    var longer := before + block[..j + 1];
    assert longer[..|longer| - 1] == before + block[..j] && longer[|longer| - 1] == block[j];
  }

  lemma FillAppend(cache: map<ContentKey, EncodingKey>, before: seq<Mapping>, page: seq<Mapping>, j: nat)
    requires j < |page|
    ensures
      var filled := Fill(cache, before + page[..j]);
      Fill(cache, before + page[..j + 1]) ==
      if page[j].encodingKeys != [] then filled[page[j].contentKey := page[j].encodingKeys[0]] else filled
  {
    var longer := before + page[..j + 1];
    assert longer[..|longer| - 1] == before + page[..j] && longer[|longer| - 1] == page[j];
  }

  lemma {:induction false} FindEncodingAppend(a: seq<Mapping>, b: seq<Mapping>, key: ContentKey)
    ensures FindEncoding(a + b, key) == if FindEncoding(a, key).Some? then FindEncoding(a, key) else FindEncoding(b, key)
  {
    if a == [] {
      assert a + b == b;
    } else {
      assert (a + b)[1..] == a[1..] + b;
      FindEncodingAppend(a[1..], b, key);
    }
  }

  lemma FoundInPrefix(pages: EncodingFile, i: nat, j: nat, key: ContentKey)
    requires i < |pages| && j < |pages[i]|
    ensures var found := FindEncoding(Flatten(pages[..i]) + pages[i][..j + 1], key);
            found.Some? ==> FindEncoding(Flatten(pages), key) == found
  {
    var seen := Flatten(pages[..i]) + pages[i][..j + 1];
    FlattenSplit(pages, i);
    var rest := pages[i][j + 1..] + Flatten(pages[i + 1..]);
    assert Flatten(pages) == seen + rest;
    FindEncodingAppend(seen, rest, key);
  }

  lemma {:induction false} FlattenSplit<T>(pages: seq<seq<T>>, i: nat)
    requires i < |pages|
    ensures Flatten(pages) == Flatten(pages[..i]) + (pages[i] + Flatten(pages[i + 1..]))
  {
    if i > 0 {
      FlattenSplit(pages[1..], i - 1);
      assert pages[1..][..i - 1] == pages[..i][1..] && pages[1..][i..] == pages[i + 1..];
    }
  }
}

/** The write protocol of the disk cache, step by step, with several writers, crashes and
    restarts. Directory updates (create, rename, unlink) are atomic; file contents survive a
    crash only once they are synced. */
module DiskCrash {
  import opened Common
  import opened DiskCache
  import Keys

  datatype File = File(data: Bytes, synced: bool)

  /** How far `write_file` has come: part of the data written, data synced, file renamed. */
  datatype Stage = Writing(written: nat) | Synced | Renamed

  datatype Writer<K> = Writer(key: K, data: Bytes, stage: Stage)

  /** The files, the in-memory index, the writes in flight; and two history variables: the
      values ever passed to `put`, and for each key the value of its last finished rename
      that was not deleted since. */
  datatype State<K> = State(
    files: map<Path, File>, index: set<K>, writers: map<nat, Writer<K>>,
    puts: set<(K, Bytes)>, committed: map<K, Bytes>)

  datatype Step<K> =
    | Begin(id: nat, key: K, data: Bytes)
    | Write(id: nat, upTo: nat)
    | Sync(id: nat)
    | Rename(id: nat)
    | Record(id: nat)
    | Get(key: K, readable: bool, result: Answer)
    | Lapse(key: K)
    | Remove(key: K)
    | Clear
    | Crash(survivors: map<Path, File>)

  function Temp<K>(c: Config<K>, k: K): Path {
    TempPath(FilePath(c, k))
  }

  function Update(files: map<Path, File>, p: Path, f: File): map<Path, File> {
    if p in files then files[p := f] else files
  }

  function SyncFile(files: map<Path, File>, p: Path): map<Path, File> {
    if p in files then files[p := files[p].(synced := true)] else files
  }

  /** A crash keeps every synced file; of the others anything may be left. */
  ghost predicate Survives(before: map<Path, File>, after: map<Path, File>) {
    && (forall p :: p in before && before[p].synced ==> p in after && after[p] == before[p])
    && (forall p :: p in after && after[p].synced ==> p in before && before[p] == after[p])
    && (forall p :: p in after ==> p in before)
  }

  /** What the code does. A write whose temporary file was deleted under it goes on without
      effect, and its rename fails. */
  ghost predicate Next<K>(c: Config<K>, s: State<K>, step: Step<K>, t: State<K>) {
    match step
    case Begin(id, k, v) =>
      && id !in s.writers && c.good(k)
      && t == s.(files := s.files[Temp(c, k) := File([], false)],
                 writers := s.writers[id := Writer(k, v, Writing(0))],
                 puts := s.puts + {(k, v)})
    case Write(id, upTo) =>
      && id in s.writers && s.writers[id].stage.Writing?
      && s.writers[id].stage.written <= upTo <= |s.writers[id].data|
      && var w := s.writers[id];
         t == s.(files := Update(s.files, Temp(c, w.key), File(w.data[..upTo], false)),
                 writers := s.writers[id := w.(stage := Writing(upTo))])
    case Sync(id) =>
      && id in s.writers && s.writers[id].stage == Writing(|s.writers[id].data|)
      && var w := s.writers[id];
         t == s.(files := SyncFile(s.files, Temp(c, w.key)), writers := s.writers[id := w.(stage := Synced)])
    case Rename(id) =>
      && id in s.writers && s.writers[id].stage == Synced
      && var w := s.writers[id];
         if Temp(c, w.key) in s.files then
           t == s.(files := (s.files - {Temp(c, w.key)})[FilePath(c, w.key) := s.files[Temp(c, w.key)]],
                   writers := s.writers[id := w.(stage := Renamed)],
                   committed := s.committed[w.key := w.data])
         else t == s.(writers := s.writers - {id})
    case Record(id) =>
      && id in s.writers && s.writers[id].stage == Renamed
      && t == s.(index := s.index + {s.writers[id].key}, writers := s.writers - {id})
    case Get(k, readable, result) =>
      && c.good(k)
      && (if readable && FilePath(c, k) in s.files then
            result == Answer.Bytes(Some(s.files[FilePath(c, k)].data)) && t == s.(index := s.index + {k})
          else result == (if k in s.index then Failed else Answer.Bytes(None)) && t == s.(index := s.index - {k}))
    case Lapse(k) =>
      // A read that finds an expired entry, or the cleanup task, deletes entry and file.
      && c.good(k) && k in s.index
      && t == s.(files := s.files - {FilePath(c, k)}, index := s.index - {k}, committed := s.committed - {k})
    case Remove(k) =>
      && c.good(k)
      && t == if k in s.index then s.(files := s.files - {FilePath(c, k)}, index := s.index - {k},
                                      committed := s.committed - {k})
              else s
    case Clear => t == s.(files := map[], index := {}, committed := map[])
    case Crash(survivors) =>
      Survives(s.files, survivors) && t == s.(files := survivors, index := {}, writers := map[])
  }

  /** No two writes in flight share a temporary file. */
  ghost predicate Exclusive<K>(c: Config<K>, s: State<K>, step: Step<K>) {
    step.Begin? ==> forall id :: id in s.writers && s.writers[id].stage != Renamed ==>
                                   Temp(c, s.writers[id].key) != Temp(c, step.key)
  }

  // ----- The invariant -----

  /** A key's file holds its committed value, synced; without one there is no file. */
  ghost predicate Settled<K>(c: Config<K>, s: State<K>, k: K) {
    if k in s.committed then
      && (k, s.committed[k]) in s.puts
      && FilePath(c, k) in s.files && s.files[FilePath(c, k)] == File(s.committed[k], true)
    else FilePath(c, k) !in s.files
  }

  /** A write in flight knows what its temporary file holds, if it still exists. */
  ghost predicate Underway<K>(c: Config<K>, s: State<K>, w: Writer<K>) {
    var temp := Temp(c, w.key);
    && c.good(w.key) && (w.key, w.data) in s.puts
    && match w.stage
       case Writing(n) => n <= |w.data| && (temp in s.files ==> s.files[temp].data == w.data[..n])
       case Synced => temp in s.files ==> s.files[temp] == File(w.data, true)
       case Renamed => true
  }

  ghost predicate Apart<K>(c: Config<K>, s: State<K>) {
    forall i, j :: i in s.writers && j in s.writers && i != j
                   && s.writers[i].stage != Renamed && s.writers[j].stage != Renamed ==>
                     Temp(c, s.writers[i].key) != Temp(c, s.writers[j].key)
  }

  ghost predicate Inv<K(!new)>(c: Config<K>, s: State<K>) {
    && (forall k :: c.good(k) ==> Settled(c, s, k))
    && (forall id :: id in s.writers ==> Underway(c, s, s.writers[id]))
    && Apart(c, s)
  }

  // ----- Each step keeps it -----

  lemma BeginKeeps<K(!new)>(c: Config<K>, s: State<K>, step: Step<K>, t: State<K>)
    requires WellNamed(c) && Inv(c, s) && step.Begin? && Next(c, s, step, t) && Exclusive(c, s, step)
    ensures Inv(c, t)
  {
    var temp := Temp(c, step.key);
    forall k | c.good(k) ensures Settled(c, t, k) {
      assert Settled(c, s, k);
      FilesAreDistinct(c, k, step.key);
    }
    forall id | id in t.writers ensures Underway(c, t, t.writers[id]) {
      if id != step.id {
        assert Underway(c, s, s.writers[id]);
      }
    }
  }

  /** Replacing one writer's temporary file touches no key's file and no other writer's. */
  lemma TempUpdateKeeps<K(!new)>(c: Config<K>, s: State<K>, id: nat, w: Writer<K>, f: File, t: State<K>)
    requires WellNamed(c) && Inv(c, s) && id in s.writers && s.writers[id].stage != Renamed
    requires w.key == s.writers[id].key && w.stage != Renamed
    requires t == s.(files := Update(s.files, Temp(c, w.key), f), writers := s.writers[id := w])
    requires Underway(c, t, w)
    ensures Inv(c, t)
  {
    forall k | c.good(k) ensures Settled(c, t, k) {
      assert Settled(c, s, k);
      FilesAreDistinct(c, k, w.key);
    }
    forall i | i in t.writers ensures Underway(c, t, t.writers[i]) {
      if i != id {
        assert Underway(c, s, s.writers[i]);
      }
    }
  }

  lemma WriteKeeps<K(!new)>(c: Config<K>, s: State<K>, step: Step<K>, t: State<K>)
    requires WellNamed(c) && Inv(c, s) && step.Write? && Next(c, s, step, t)
    ensures Inv(c, t)
  {
    var w := s.writers[step.id];
    assert Underway(c, s, w);
    TempUpdateKeeps(c, s, step.id, w.(stage := Writing(step.upTo)), File(w.data[..step.upTo], false), t);
  }

  lemma SyncKeeps<K(!new)>(c: Config<K>, s: State<K>, step: Step<K>, t: State<K>)
    requires WellNamed(c) && Inv(c, s) && step.Sync? && Next(c, s, step, t)
    ensures Inv(c, t)
  {
    var w := s.writers[step.id];
    assert Underway(c, s, w);
    assert w.data[..|w.data|] == w.data;
    TempUpdateKeeps(c, s, step.id, w.(stage := Synced), File(w.data, true), t);
  }

  lemma RenameKeepsSettled<K(!new)>(c: Config<K>, s: State<K>, step: Step<K>, t: State<K>, k: K)
    requires WellNamed(c) && Inv(c, s) && step.Rename? && Next(c, s, step, t) && c.good(k)
    ensures Settled(c, t, k)
  {
    var w := s.writers[step.id];
    assert Underway(c, s, w);
    assert Settled(c, s, k);
    FilesAreDistinct(c, k, w.key);
  }

  lemma RenameKeepsUnderway<K(!new)>(c: Config<K>, s: State<K>, step: Step<K>, t: State<K>, id: nat)
    requires WellNamed(c) && Inv(c, s) && step.Rename? && Next(c, s, step, t) && id in t.writers
    ensures Underway(c, t, t.writers[id])
  {
    var w := s.writers[step.id];
    assert Underway(c, s, w) && Underway(c, s, s.writers[id]);
    FilesAreDistinct(c, w.key, s.writers[id].key);
  }

  lemma RenameKeeps<K(!new)>(c: Config<K>, s: State<K>, step: Step<K>, t: State<K>)
    requires WellNamed(c) && Inv(c, s) && step.Rename? && Next(c, s, step, t)
    ensures Inv(c, t)
  {
    forall k | c.good(k) ensures Settled(c, t, k) {
      RenameKeepsSettled(c, s, step, t, k);
    }
    forall id | id in t.writers ensures Underway(c, t, t.writers[id]) {
      RenameKeepsUnderway(c, s, step, t, id);
    }
  }

  lemma RemoveKeeps<K(!new)>(c: Config<K>, s: State<K>, step: Step<K>, t: State<K>)
    requires WellNamed(c) && Inv(c, s) && (step.Remove? || step.Lapse?) && Next(c, s, step, t)
    ensures Inv(c, t)
  {
    forall k | c.good(k) ensures Settled(c, t, k) {
      assert Settled(c, s, k);
      FilesAreDistinct(c, k, step.key);
    }
    forall id | id in t.writers ensures Underway(c, t, t.writers[id]) {
      assert Underway(c, s, s.writers[id]);
      FilesAreDistinct(c, step.key, s.writers[id].key);
    }
  }

  lemma CrashKeeps<K(!new)>(c: Config<K>, s: State<K>, step: Step<K>, t: State<K>)
    requires Inv(c, s) && (step.Clear? || step.Crash?) && Next(c, s, step, t)
    ensures Inv(c, t)
  {
    forall k | c.good(k) ensures Settled(c, t, k) {
      assert Settled(c, s, k);
    }
    forall id | id in t.writers ensures Underway(c, t, t.writers[id]) {
      assert Underway(c, s, s.writers[id]);
    }
  }

  lemma MemoryKeeps<K(!new)>(c: Config<K>, s: State<K>, step: Step<K>, t: State<K>)
    requires Inv(c, s) && (step.Record? || step.Get?) && Next(c, s, step, t)
    ensures Inv(c, t)
  {
    forall k | c.good(k) ensures Settled(c, t, k) {
      assert Settled(c, s, k);
    }
    forall id | id in t.writers ensures Underway(c, t, t.writers[id]) {
      assert Underway(c, s, s.writers[id]);
    }
  }

  // ----- Every run -----

  function Start<K>(): State<K> {
    State(map[], {}, map[], {}, map[])
  }

  ghost predicate Run<K(!new)>(c: Config<K>, states: seq<State<K>>, steps: seq<Step<K>>) {
    && |states| == |steps| + 1 && states[0] == Start()
    && forall i :: 0 <= i < |steps| ==>
         Next(c, states[i], steps[i], states[i + 1]) && Exclusive(c, states[i], steps[i])
  }

  lemma {:induction false} RunKeepsInv<K(!new)>(c: Config<K>, states: seq<State<K>>, steps: seq<Step<K>>, n: nat)
    requires WellNamed(c) && Run(c, states, steps) && n <= |steps|
    ensures Inv(c, states[n])
  {
    if n > 0 {
      RunKeepsInv(c, states, steps, n - 1);
      var s, step, t := states[n - 1], steps[n - 1], states[n - 1 + 1];
      assert Next(c, s, step, t) && Exclusive(c, s, step);
      match step
      case Begin(_, _, _) => BeginKeeps(c, s, step, t);
      case Write(_, _) => WriteKeeps(c, s, step, t);
      case Sync(_) => SyncKeeps(c, s, step, t);
      case Rename(_) => RenameKeeps(c, s, step, t);
      case Remove(_) => RemoveKeeps(c, s, step, t);
      case Lapse(_) => RemoveKeeps(c, s, step, t);
      case Clear => CrashKeeps(c, s, step, t);
      case Crash(_) => CrashKeeps(c, s, step, t);
      case _ => MemoryKeeps(c, s, step, t);
    }
  }

  /** In every state of every run, crashes included, a key's file holds one complete value
      that was put for it: the last one committed and not deleted since. */
  lemma FilesAreNeverTorn<K(!new)>(c: Config<K>, states: seq<State<K>>, steps: seq<Step<K>>, n: nat, k: K)
    requires WellNamed(c) && Run(c, states, steps) && n <= |steps| && c.good(k)
    ensures var s := states[n];
            && (FilePath(c, k) in s.files <==> k in s.committed)
            && (FilePath(c, k) in s.files ==>
                  && s.files[FilePath(c, k)].data == s.committed[k]
                  && (k, s.committed[k]) in s.puts)
  {
    RunKeepsInv(c, states, steps, n);
    assert Settled(c, states[n], k);
  }

  /** Every read of every run returns the committed value of its key; only a key without one,
      or one whose file cannot be read, is missed, and the read fails exactly when the index
      lists such a key. */
  lemma GetReturnsCommitted<K(!new)>(c: Config<K>, states: seq<State<K>>, steps: seq<Step<K>>, n: nat)
    requires WellNamed(c) && Run(c, states, steps) && n < |steps| && steps[n].Get?
    ensures var s, k := states[n], steps[n].key;
            steps[n].result ==
            if steps[n].readable && k in s.committed then Answer.Bytes(Some(s.committed[k]))
            else if k in s.index then Failed else Answer.Bytes(None)
  {
    assert Next(c, states[n], steps[n], states[n + 1]);
    FilesAreNeverTorn(c, states, steps, n, steps[n].key);
  }

  /** A crash loses nothing that was committed: the next read, of a restarted cache whose
      index is empty, still returns it. */
  lemma RestartReturnsCommitted<K(!new)>(c: Config<K>, states: seq<State<K>>, steps: seq<Step<K>>, n: nat)
    requires WellNamed(c) && Run(c, states, steps) && n + 1 < |steps|
    requires steps[n].Crash? && steps[n + 1].Get? && steps[n + 1].readable
    ensures var k := steps[n + 1].key;
            steps[n + 1].result == Answer.Bytes(if k in states[n].committed then Some(states[n].committed[k]) else None)
  {
    assert Next(c, states[n], steps[n], states[n + 1]);
    GetReturnsCommitted(c, states, steps, n + 1);
  }

  // ----- The steps and the operations -----

  /** The directory and index of the disk cache, as these steps leave them. */
  ghost predicate Shows<K(!new)>(c: Config<K>, s: State<K>, d: Disk<K>) {
    && d.files.Keys == s.files.Keys && (forall p :: p in d.files ==> d.files[p] == s.files[p].data)
    && d.index.Keys == s.index && Named(c, d.index)
  }

  /** Reads, removals and clears do to files and index what the operations of the cache do,
      with the same answer. */
  lemma ReadAgrees<K(!new)>(c: Config<K>, s: State<K>, d: Disk<K>, step: Step<K>, t: State<K>, now: nat, born: nat)
    requires Shows(c, s, d) && Next(c, s, step, t) && step.Get?
    requires step.key in d.index ==> !d.index[step.key].IsExpired(now)
    ensures var (e, answer) := Apply(c, d, Op.Get(step.key, now, born, step.readable));
            Shows(c, t, e) && answer == step.result
  {
  }

  /** A lapse is a read that finds its entry expired. */
  lemma LapseAgrees<K(!new)>(c: Config<K>, s: State<K>, d: Disk<K>, step: Step<K>, t: State<K>, now: nat, born: nat)
    requires Shows(c, s, d) && Next(c, s, step, t) && step.Lapse? && d.index[step.key].IsExpired(now)
    ensures Shows(c, t, Apply(c, d, Op.Get(step.key, now, born, true)).0)
  {
  }

  lemma RemovalAgrees<K(!new)>(c: Config<K>, s: State<K>, d: Disk<K>, step: Step<K>, t: State<K>)
    requires Shows(c, s, d) && Next(c, s, step, t)
    ensures step.Remove? ==> Shows(c, t, Apply(c, d, Op.Remove(step.key)).0)
    ensures step.Clear? ==> Shows(c, t, Apply(c, d, Op.Clear).0)
  {
  }

  /** A write that nothing interrupts does what a put does. */
  lemma PutAgrees<K(!new)>(
    c: Config<K>, s: seq<State<K>>, d: Disk<K>, id: nat, k: K, v: Bytes, ttl: nat, now: nat)
    requires |s| == 6 && Shows(c, s[0], d)
    requires Next(c, s[0], Begin(id, k, v), s[1]) && Next(c, s[1], Write(id, |v|), s[2])
    requires Next(c, s[2], Sync(id), s[3]) && Next(c, s[3], Rename(id), s[4]) && Next(c, s[4], Record(id), s[5])
    ensures Shows(c, s[5], AfterPut(c, d, k, v, ttl, now))
  {
    SyncReached(c, s[0], s[1], s[2], s[3], id, k, v);
    RecordReached(c, s[0].files, s[3], s[4], s[5], id, k, v);
    PutShown(c, s[0], d, s[5], k, v, ttl, now);
  }

  lemma PutShown<K(!new)>(c: Config<K>, s: State<K>, d: Disk<K>, t: State<K>, k: K, v: Bytes, ttl: nat, now: nat)
    requires Shows(c, s, d) && c.good(k)
    requires t.files == (s.files - {Temp(c, k)})[FilePath(c, k) := File(v, true)] && t.index == s.index + {k}
    ensures Shows(c, t, AfterPut(c, d, k, v, ttl, now))
  {
    var e := AfterPut(c, d, k, v, ttl, now);
    assert e.files.Keys == t.files.Keys;
    assert e.index.Keys == t.index;
  }

  lemma RecordReached<K>(
    c: Config<K>, files: map<Path, File>, s3: State<K>, s4: State<K>, s5: State<K>, id: nat, k: K, v: Bytes)
    requires Next(c, s3, Rename(id), s4) && Next(c, s4, Record(id), s5)
    requires id in s3.writers && s3.writers[id].key == k && s3.files == files[Temp(c, k) := File(v, true)]
    ensures s5.files == (files - {Temp(c, k)})[FilePath(c, k) := File(v, true)] && s5.index == s3.index + {k}
  {
    assert s3.files - {Temp(c, k)} == files - {Temp(c, k)};
  }

  lemma SyncReached<K>(
    c: Config<K>, s0: State<K>, s1: State<K>, s2: State<K>, s3: State<K>, id: nat, k: K, v: Bytes)
    requires Next(c, s0, Begin(id, k, v), s1) && Next(c, s1, Write(id, |v|), s2) && Next(c, s2, Sync(id), s3)
    ensures s3.files == s0.files[Temp(c, k) := File(v, true)] && s3.index == s0.index
    ensures id in s3.writers && s3.writers[id] == Writer(k, v, Synced)
  {
    assert v[..|v|] == v;
  }

  /** And it can always be carried out. */
  lemma PutHappens<K(!new)>(c: Config<K>, s: State<K>, id: nat, k: K, v: Bytes) returns (states: seq<State<K>>)
    requires c.good(k) && id !in s.writers
    ensures |states| == 6 && states[0] == s
    ensures Next(c, states[0], Begin(id, k, v), states[1]) && Next(c, states[1], Write(id, |v|), states[2])
    ensures Next(c, states[2], Sync(id), states[3]) && Next(c, states[3], Rename(id), states[4])
    ensures Next(c, states[4], Record(id), states[5])
  {
    var temp, w := Temp(c, k), Writer(k, v, Writing(0));
    var s1 := s.(files := s.files[temp := File([], false)], writers := s.writers[id := w], puts := s.puts + {(k, v)});
    var s2 := s1.(files := Update(s1.files, temp, File(v[..|v|], false)),
                  writers := s1.writers[id := w.(stage := Writing(|v|))]);
    var s3 := s2.(files := SyncFile(s2.files, temp), writers := s2.writers[id := w.(stage := Synced)]);
    var s4 := s3.(files := (s3.files - {temp})[FilePath(c, k) := s3.files[temp]],
                  writers := s3.writers[id := w.(stage := Renamed)], committed := s3.committed[k := v]);
    var s5 := s4.(index := s4.index + {k}, writers := s4.writers - {id});
    states := [s, s1, s2, s3, s4, s5];
  }

  /** At a crash any files that are not synced may be lost, and any other one changed. */
  lemma CrashMayLose<K>(c: Config<K>, s: State<K>, lost: set<Path>, p: Path, data: Bytes)
    requires forall q :: q in lost && q in s.files ==> !s.files[q].synced
    requires p in s.files && !s.files[p].synced
    ensures var left := (s.files - lost)[p := File(data, false)];
            Next(c, s, Crash(left), s.(files := left, index := {}, writers := map[]))
  {
  }

  /** A first put that got as far as its sync. */
  function SyncedPut<K>(c: Config<K>, j: K, v: Bytes): State<K> {
    State(map[Temp(c, j) := File(v, true)], {}, map[1 := Writer(j, v, Synced)], {(j, v)}, map[])
  }

  lemma FirstPut<K(!new)>(c: Config<K>, j: K, v: Bytes) returns (s1: State<K>, s2: State<K>)
    requires c.good(j)
    ensures Next(c, Start(), Begin(1, j, v), s1)
    ensures Next(c, s1, Write(1, |v|), s2)
    ensures Next(c, s2, Sync(1), SyncedPut(c, j, v))
  {
    var p, a := Temp(c, j), Writer(j, v, Writing(0));
    s1 := State(map[p := File([], false)], {}, map[1 := a], {(j, v)}, map[]);
    s2 := s1.(files := map[p := File(v, false)], writers := map[1 := a.(stage := Writing(|v|))]);
    assert v[..|v|] == v;
  }

  lemma SecondPut<K(!new)>(c: Config<K>, j: K, k: K, v: Bytes, w: Bytes) returns (s: State<K>, t: State<K>)
    requires WellNamed(c) && c.good(j) && c.good(k) && Temp(c, j) == Temp(c, k)
    ensures Next(c, SyncedPut(c, j, v), Begin(2, k, w), s)
    ensures Next(c, s, Rename(1), t)
    ensures t.puts == {(j, v), (k, w)} && t.files == map[FilePath(c, j) := File([], false)]
  {
    var p, path, first := Temp(c, j), FilePath(c, j), SyncedPut(c, j, v);
    s := first.(files := map[p := File([], false)], writers := first.writers[2 := Writer(k, w, Writing(0))],
                puts := first.puts + {(k, w)});
    t := s.(files := map[path := File([], false)],
            writers := s.writers[1 := Writer(j, v, Renamed)], committed := map[j := v]);
    assert (s.files - {p})[path := s.files[p]] == t.files;
  }

  /** The restriction to writes with different temporary files is needed: of two puts that
      share one, be it for two keys or for one, the first can publish a file that was never
      put. */
  lemma SharedTempTears<K(!new)>(c: Config<K>, j: K, k: K, v: Bytes, w: Bytes)
    returns (states: seq<State<K>>, steps: seq<Step<K>>)
    requires WellNamed(c) && c.good(j) && c.good(k) && Temp(c, j) == Temp(c, k)
    requires v != [] && (j == k ==> w != [])
    ensures |states| == |steps| + 1 && states[0] == Start()
    ensures forall i :: 0 <= i < |steps| ==> Next(c, states[i], steps[i], states[i + 1])
    ensures var last := states[|steps|];
            FilePath(c, j) in last.files && (j, last.files[FilePath(c, j)].data) !in last.puts
  {
    var s1, s2 := FirstPut(c, j, v);
    var s4, s5 := SecondPut(c, j, k, v, w);
    states := [Start(), s1, s2, SyncedPut(c, j, v), s4, s5];
    steps := [Begin(1, j, v), Write(1, |v|), Sync(1), Begin(2, k, w), Rename(1)];
  }

  /** Such keys exist: names that differ only after the last dot share a temporary name. */
  lemma SameStemSameTemp<K>(c: Config<K>, j: K, k: K, stem: string, x: string, y: string)
    requires !c.useSubdirectories && stem != "" && '.' !in x && '.' !in y
    requires c.text(j) == stem + "." + x && c.text(k) == stem + "." + y
    ensures Temp(c, j) == Temp(c, k)
  {
    LastDotIs(stem, x);
    LastDotIs(stem, y);
    assert (stem + "." + x)[..|stem|] == stem == (stem + "." + y)[..|stem|];
  }

  lemma ConfigText(hash: string)
    requires hash in ["h.1", "h.2"]
    ensures Keys.Print(Keys.Config("t", hash)) == "config:t:" + hash && GoodKey(Keys.Config("t", hash))
  {
    var k := Keys.Config("t", hash);
    assert Keys.Tag(k) == "config" && Keys.Body(k) == "t" + ":" + hash;
    var text := "config:t:" + hash;
    assert "config" + ":" + ("t" + ":" + hash) == text;
    assert text[|text| - 4..][3] == text[|text| - 1] == hash[2];
  }

  /** For example two configuration keys whose hashes are `h.1` and `h.2`. */
  lemma SharedTempKeys(c: Config<Keys.Key>, j: Keys.Key, k: Keys.Key)
    requires c.text == Keys.Print && c.good == GoodKey && !c.useSubdirectories
    requires j == Keys.Config("t", "h.1") && k == Keys.Config("t", "h.2")
    ensures c.good(j) && c.good(k) && j != k && Temp(c, j) == Temp(c, k)
  {
    ConfigText("h.1");
    ConfigText("h.2");
    assert "config:t:" + "h.1" == "config:t:h" + "." + "1";
    assert "config:t:" + "h.2" == "config:t:h" + "." + "2";
    SameStemSameTemp(c, j, k, "config:t:h", "1", "2");
  }

  lemma {:induction false} LastDotIs(stem: string, x: string)
    requires '.' !in x
    ensures LastDot(stem + "." + x) == |stem|
  {
    var s := stem + "." + x;
    if stem == "" {
      assert s[1..] == x;
      NoDot(x);
    } else {
      assert s[1..] == stem[1..] + "." + x;
      LastDotIs(stem[1..], x);
    }
  }

  lemma {:induction false} NoDot(x: string)
    requires '.' !in x
    ensures LastDot(x) == |x|
  {
    if x != "" {
      NoDot(x[1..]);
    }
  }
}

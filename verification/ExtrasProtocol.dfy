/**
 `save_extras` by any number of processes and `save_merge` by one, as steps that interleave freely.
 Each lock attempt, existence check, open, write and unlink is a step of its own.
 */
module ExtrasProtocol {
  import opened CacheMerge
  import opened Options

  /** How far one call of `save_extras` has come; `i` is the number it tries. */
  datatype Writer =
    | Waiting
    | Locking(i: nat)
    | Checking(i: nat)
    | Opening(i: nat)
    | Writing(i: nat)
    | Unlocking(i: nat)
    | Leaving
    | Saved

  /** How far the merger has come; `todo` is what is left of its listing. */
  datatype Merger =
    | Idle
    | Listing
    | Choosing(todo: set<nat>)
    | Reading(f: nat, todo: set<nat>)
    | Removing(f: nat, todo: set<nat>)
    | Finishing

  /** One call of `save_extras`: the number it starts at, and the table it has to save. */
  datatype Call = Call(pid: nat, table: Data)

  /** `data` is the merger's `cachedata`, `cache` the cache file, and `merged` the history of merges. */
  datatype State = State(
    writers: seq<Writer>, locks: map<nat, nat>, sharers: set<nat>, exclusive: bool,
    files: map<nat, File>, merger: Merger, haveData: bool, data: Data, cache: Data, merged: seq<Data>)

  datatype Action = Write(j: nat) | Merge | Choose(f: nat)

  predicate Enabled(s: State, a: Action) {
    match a
    case Write(j) => j < |s.writers| && !s.writers[j].Saved? && (s.writers[j].Waiting? ==> !s.exclusive)
    case Merge => (s.merger.Idle? ==> s.sharers == {}) && (s.merger.Choosing? ==> s.merger.todo == {})
    case Choose(f) => s.merger.Choosing? && f in s.merger.todo
  }

  function WriterStep(calls: seq<Call>, s: State, j: nat): State
    requires |calls| == |s.writers| && Enabled(s, Write(j))
  {
    match s.writers[j]
    case Waiting => s.(sharers := s.sharers + {j}, writers := s.writers[j := Locking(calls[j].pid)])
    case Locking(i) =>
      if i in s.locks then s.(writers := s.writers[j := Locking(i + 1)])
      else s.(locks := s.locks[i := j], writers := s.writers[j := Checking(i)])
    case Checking(i) =>
      if i in s.files then s.(locks := s.locks - {i}, writers := s.writers[j := Locking(i + 1)])
      else s.(writers := s.writers[j := Opening(i)])
    case Opening(i) => s.(files := s.files[i := Partial(j)], writers := s.writers[j := Writing(i)])
    case Writing(i) => s.(files := s.files[i := Complete(calls[j].table)], writers := s.writers[j := Unlocking(i)])
    case Unlocking(i) => s.(locks := s.locks - {i}, writers := s.writers[j := Leaving])
    case Leaving => s.(sharers := s.sharers - {j}, writers := s.writers[j := Saved])
  }

  function MergerStep(s: State): State
    requires Enabled(s, Merge)
  {
    match s.merger
    case Idle => s.(exclusive := true, merger := Listing)
    case Listing => s.(haveData := false, merger := Choosing(s.files.Keys))
    case Choosing(_) => s.(merger := Finishing)
    case Reading(f, todo) =>
      if f in s.files && s.files[f].Complete? then
        var table := s.files[f].data;
        s.(haveData := true, data := FoldMerge(s.data, [table]), merged := s.merged + [table], merger := Removing(f, todo))
      else s.(merger := Removing(f, todo))
    case Removing(f, todo) => s.(files := s.files - {f}, merger := Choosing(todo))
    case Finishing => s.(cache := if s.haveData then s.data else s.cache, exclusive := false, merger := Idle)
  }

  function Act(calls: seq<Call>, s: State, a: Action): State
    requires |calls| == |s.writers| && Enabled(s, a)
  {
    match a
    case Write(j) => WriterStep(calls, s, j)
    case Merge => MergerStep(s)
    case Choose(f) => s.(merger := Reading(f, s.merger.todo - {f}))
  }

  /** Nobody has begun; extras of earlier runs may lie about, complete or of another version. */
  ghost predicate Initial(calls: seq<Call>, s: State) {
    && |s.writers| == |calls| && (forall j :: 0 <= j < |s.writers| ==> s.writers[j].Waiting?)
    && s.locks == map[] && s.sharers == {} && !s.exclusive && s.merger.Idle?
    && (forall i :: i in s.files ==> !s.files[i].Partial?)
    && s.cache == s.data && s.merged == []
    && (forall j :: 0 <= j < |calls| ==> |calls[j].table| == |s.data|)
    && (forall i :: i in s.files && s.files[i].Complete? ==> |s.files[i].data| == |s.data|)
  }

  // ---- what every step keeps ----

  /** The number whose lock a writer has. */
  function Held(w: Writer): Option<nat> {
    if w.Checking? || w.Opening? || w.Writing? || w.Unlocking? then Some(w.i) else None
  }

  /** A number lock belongs to the one writer that is at that number. */
  ghost predicate LocksOk(locks: map<nat, nat>, ws: seq<Writer>) {
    && (forall i :: i in locks ==> locks[i] < |ws| && Held(ws[locks[i]]) == Some(i))
    && forall j :: 0 <= j < |ws| && Held(ws[j]).Some? ==> Held(ws[j]).value in locks && locks[Held(ws[j]).value] == j
  }

  /** Writers inside `save_extras` share the global lock; the merger excludes them all. */
  ghost predicate SharingOk(s: State) {
    && (forall j :: 0 <= j < |s.writers| && !s.writers[j].Waiting? && !s.writers[j].Saved? ==> j in s.sharers)
    && (forall j :: j in s.sharers ==> j < |s.writers| && !s.writers[j].Waiting? && !s.writers[j].Saved?)
    && (s.exclusive <==> !s.merger.Idle?)
    && (s.exclusive ==> s.sharers == {})
  }

  /** What a writer relies on while it has its number. */
  ghost predicate FileOf(files: map<nat, File>, w: Writer, j: nat) {
    && (w.Opening? ==> w.i !in files)
    && (w.Writing? ==> w.i in files && files[w.i] == Partial(j))
  }

  /** A file is only half written while its writer is at it. */
  ghost predicate FilesOk(files: map<nat, File>, ws: seq<Writer>) {
    && (forall j :: 0 <= j < |ws| ==> FileOf(files, ws[j], j))
    && forall i :: i in files && files[i].Partial? ==> files[i].job < |ws| && ws[files[i].job] == Writing(i)
  }

  /** What is left of the listing is all that is left of the files: nobody else adds or takes any. */
  ghost predicate MergerOk(s: State) {
    match s.merger
    case Choosing(todo) => todo == s.files.Keys
    case Reading(f, todo) => f !in todo && s.files.Keys == todo + {f}
    case Removing(f, todo) =>
      && f !in todo && s.files.Keys == todo + {f}
      && !s.files[f].Partial? && (s.files[f].Complete? ==> s.files[f].data in s.merged)
    case Finishing => s.files == map[]
    case _ => true
  }

  ghost predicate Pending(s: State, table: Data) {
    exists i :: i in s.files && s.files[i] == Complete(table)
  }

  predicate HasWritten(w: Writer) {
    w.Unlocking? || w.Leaving? || w.Saved?
  }

  ghost predicate TablesOk(calls: seq<Call>, s: State)
    requires |calls| == |s.writers|
  {
    forall j :: 0 <= j < |s.writers| && HasWritten(s.writers[j]) ==>
      Pending(s, calls[j].table) || calls[j].table in s.merged
  }

  /** `data0` is the cache that the merger had loaded; all tables are as wide. */
  ghost predicate DataOk(calls: seq<Call>, data0: Data, s: State) {
    && s.data == FoldMerge(data0, s.merged) && SameWidth(data0, s.merged)
    && (s.merger.Idle? || s.merger.Listing? || !s.haveData ==> s.cache == s.data)
    && (forall j :: 0 <= j < |calls| ==> |calls[j].table| == |data0|)
    && (forall i :: i in s.files && s.files[i].Complete? ==> |s.files[i].data| == |data0|)
  }

  ghost predicate Inv(calls: seq<Call>, data0: Data, s: State) {
    && |calls| == |s.writers| && LocksOk(s.locks, s.writers) && SharingOk(s) && FilesOk(s.files, s.writers)
    && MergerOk(s) && TablesOk(calls, s) && DataOk(calls, data0, s)
  }

  // ---- locks ----

  lemma LockTaken(locks: map<nat, nat>, ws: seq<Writer>, j: nat, w: Writer)
    requires LocksOk(locks, ws) && j < |ws| && Held(ws[j]) == None
    requires Held(w).Some? && Held(w).value !in locks
    ensures LocksOk(locks[Held(w).value := j], ws[j := w])
  {
  }

  lemma LockReleased(locks: map<nat, nat>, ws: seq<Writer>, j: nat, w: Writer)
    requires LocksOk(locks, ws) && j < |ws| && Held(ws[j]).Some? && Held(w) == None
    ensures LocksOk(locks - {Held(ws[j]).value}, ws[j := w])
  {
    hide Held;
    assert Held(ws[j]).value in locks;
  }

  lemma LockKept(locks: map<nat, nat>, ws: seq<Writer>, j: nat, w: Writer)
    requires LocksOk(locks, ws) && j < |ws| && Held(ws[j]) == Held(w)
    ensures LocksOk(locks, ws[j := w])
  {
    hide Held;
  }

  lemma WriterKeepsLocks(calls: seq<Call>, s: State, j: nat)
    requires |calls| == |s.writers| && Enabled(s, Write(j)) && LocksOk(s.locks, s.writers)
    ensures var s' := WriterStep(calls, s, j); LocksOk(s'.locks, s'.writers)
  {
    hide LocksOk;
    var w' := WriterStep(calls, s, j).writers[j];
    match s.writers[j]
    case Locking(i) =>
      if i in s.locks { LockKept(s.locks, s.writers, j, w'); } else { LockTaken(s.locks, s.writers, j, w'); }
    case Checking(i) =>
      if i in s.files { LockReleased(s.locks, s.writers, j, w'); } else { LockKept(s.locks, s.writers, j, w'); }
    case Unlocking(_) => LockReleased(s.locks, s.writers, j, w');
    case _ => LockKept(s.locks, s.writers, j, w');
  }

  // ---- files ----

  /** Two writers are never at one number. */
  lemma Alone(locks: map<nat, nat>, ws: seq<Writer>, j: nat, k: nat)
    requires LocksOk(locks, ws) && j < |ws| && k < |ws| && j != k && Held(ws[j]).Some?
    ensures Held(ws[j]) != Held(ws[k])
  {
  }

  lemma FileChanged(locks: map<nat, nat>, files: map<nat, File>, ws: seq<Writer>, j: nat, w: Writer, file: File)
    requires LocksOk(locks, ws) && FilesOk(files, ws) && j < |ws| && (ws[j].Opening? || ws[j].Writing?)
    requires (w == Writing(ws[j].i) && file == Partial(j)) || (w == Unlocking(ws[j].i) && file.Complete?)
    ensures FilesOk(files[ws[j].i := file], ws[j := w])
  {
    var i, files', ws' := ws[j].i, files[ws[j].i := file], ws[j := w];
    forall k | 0 <= k < |ws| ensures FileOf(files', ws'[k], k) {
      if k != j {
        Alone(locks, ws, j, k);
        assert FileOf(files, ws[k], k);
      }
    }
    assert FileOf(files, ws[j], j);
  }

  lemma FileKept(files: map<nat, File>, ws: seq<Writer>, j: nat, w: Writer)
    requires FilesOk(files, ws) && j < |ws| && !ws[j].Writing? && FileOf(files, w, j)
    ensures FilesOk(files, ws[j := w])
  {
    hide FileOf;
  }

  lemma WriterKeepsFiles(calls: seq<Call>, s: State, j: nat)
    requires |calls| == |s.writers| && Enabled(s, Write(j)) && LocksOk(s.locks, s.writers) && FilesOk(s.files, s.writers)
    ensures var s' := WriterStep(calls, s, j); FilesOk(s'.files, s'.writers)
  {
    hide LocksOk, FilesOk;
    var w' := WriterStep(calls, s, j).writers[j];
    match s.writers[j]
    case Opening(i) => FileChanged(s.locks, s.files, s.writers, j, w', Partial(j));
    case Writing(i) => FileChanged(s.locks, s.files, s.writers, j, w', Complete(calls[j].table));
    case _ => FileKept(s.files, s.writers, j, w');
  }

  /** While some writer is inside, the merger is not. */
  lemma WriterInsideMergerIdle(s: State, j: nat)
    requires SharingOk(s) && Enabled(s, Write(j))
    ensures s.merger.Idle? && !s.exclusive
  {
  }

  /** A table once saved stays on disk or merged, as long as no complete file goes. */
  lemma TablesStay(calls: seq<Call>, s: State, s': State, k: nat)
    requires |calls| == |s.writers| && TablesOk(calls, s) && k < |calls| && HasWritten(s.writers[k])
    requires forall t :: t in s.merged ==> t in s'.merged
    requires forall i :: i in s.files && s.files[i].Complete? ==>
      (i in s'.files && s'.files[i] == s.files[i]) || s.files[i].data in s'.merged
    ensures Pending(s', calls[k].table) || calls[k].table in s'.merged
  {
    if calls[k].table !in s.merged {
      var i :| i in s.files && s.files[i] == Complete(calls[k].table);
    }
  }

  lemma WriterKeepsTables(calls: seq<Call>, s: State, j: nat)
    requires |calls| == |s.writers| && Enabled(s, Write(j)) && FilesOk(s.files, s.writers) && TablesOk(calls, s)
    ensures TablesOk(calls, WriterStep(calls, s, j))
  {
    var s' := WriterStep(calls, s, j);
    assert FileOf(s.files, s.writers[j], j);
    forall k | 0 <= k < |s'.writers| && HasWritten(s'.writers[k])
      ensures Pending(s', calls[k].table) || calls[k].table in s'.merged
    {
      if k == j && s.writers[j].Writing? {
        assert s'.files[s.writers[j].i] == Complete(calls[j].table);
      } else {
        TablesStay(calls, s, s', k);
      }
    }
  }

  lemma WriterKeepsData(calls: seq<Call>, data0: Data, s: State, j: nat)
    requires |calls| == |s.writers| && Enabled(s, Write(j)) && DataOk(calls, data0, s)
    ensures DataOk(calls, data0, WriterStep(calls, s, j))
  {
    hide FoldMerge, SameWidth;
  }

  lemma WriterKeepsSharing(calls: seq<Call>, s: State, j: nat)
    requires |calls| == |s.writers| && Enabled(s, Write(j)) && SharingOk(s)
    ensures SharingOk(WriterStep(calls, s, j)) && MergerOk(WriterStep(calls, s, j))
  {
    WriterInsideMergerIdle(s, j);
  }

  lemma WriterKeepsInv(calls: seq<Call>, data0: Data, s: State, j: nat)
    requires Inv(calls, data0, s) && Enabled(s, Write(j))
    ensures Inv(calls, data0, WriterStep(calls, s, j))
  {
    hide LocksOk, FilesOk, TablesOk, DataOk, SharingOk, MergerOk;
    WriterKeepsLocks(calls, s, j);
    WriterKeepsFiles(calls, s, j);
    WriterKeepsTables(calls, s, j);
    WriterKeepsData(calls, data0, s, j);
    WriterKeepsSharing(calls, s, j);
  }

  lemma HalfWrittenIsShared(s: State, i: nat)
    requires FilesOk(s.files, s.writers) && SharingOk(s) && i in s.files
    ensures s.files[i].Partial? ==> s.sharers != {}
  {
    if s.files[i].Partial? { assert s.files[i].job in s.sharers; }
  }

  /** The merger never meets a half-written file: it has the global lock to itself. */
  lemma NoHalfRead(s: State)
    requires FilesOk(s.files, s.writers) && SharingOk(s) && s.exclusive
    ensures forall i :: i in s.files ==> !s.files[i].Partial?
  {
    forall i | i in s.files ensures !s.files[i].Partial? { HalfWrittenIsShared(s, i); }
  }

  lemma MergerKeepsTables(calls: seq<Call>, s: State)
    requires |calls| == |s.writers| && MergerOk(s) && TablesOk(calls, s) && Enabled(s, Merge)
    ensures TablesOk(calls, MergerStep(s))
  {
    var s' := MergerStep(s);
    forall k | 0 <= k < |s'.writers| && HasWritten(s'.writers[k])
      ensures Pending(s', calls[k].table) || calls[k].table in s'.merged
    {
      TablesStay(calls, s, s', k);
    }
  }

  lemma FoldOneMore(data0: Data, merged: seq<Data>, table: Data)
    requires SameWidth(data0, merged) && |table| == |data0|
    ensures FoldMerge(FoldMerge(data0, merged), [table]) == FoldMerge(data0, merged + [table])
    ensures SameWidth(data0, merged + [table])
  {
    var data := FoldMerge(data0, merged);
    FoldSnoc(data0, merged, table);
    FoldSnoc(data, [], table);
    assert [] + [table] == [table];
    FoldNone(data);
  }

  lemma MergerKeepsData(calls: seq<Call>, data0: Data, s: State)
    requires DataOk(calls, data0, s) && Enabled(s, Merge)
    ensures DataOk(calls, data0, MergerStep(s))
  {
    hide FoldMerge, SameWidth;
    if s.merger.Reading? && s.merger.f in s.files && s.files[s.merger.f].Complete? {
      FoldOneMore(data0, s.merged, s.files[s.merger.f].data);
    }
  }

  lemma FoldNone(data: Data)
    ensures FoldMerge(data, []) == data
  {
  }

  lemma MergerKeepsFiles(s: State)
    requires FilesOk(s.files, s.writers) && SharingOk(s) && Enabled(s, Merge)
    ensures FilesOk(MergerStep(s).files, s.writers)
  {
    if s.merger.Removing? {
      NoHalfRead(s);
      forall j | 0 <= j < |s.writers| ensures FileOf(MergerStep(s).files, s.writers[j], j) {
        assert FileOf(s.files, s.writers[j], j);
      }
    }
  }

  lemma MergerKeepsInv(calls: seq<Call>, data0: Data, s: State)
    requires Inv(calls, data0, s) && Enabled(s, Merge)
    ensures Inv(calls, data0, MergerStep(s))
  {
    MergerKeepsTables(calls, s);
    MergerKeepsData(calls, data0, s);
    MergerKeepsFiles(s);
    if s.exclusive { NoHalfRead(s); }
    MergerKeepsSharing(s);
    hide TablesOk, FoldMerge, DataOk, FilesOk, LocksOk, SharingOk, MergerOk;
  }

  lemma MergerKeepsSharing(s: State)
    requires SharingOk(s) && MergerOk(s) && Enabled(s, Merge)
    requires s.exclusive ==> forall i :: i in s.files ==> !s.files[i].Partial?
    ensures var s' := MergerStep(s); SharingOk(s') && MergerOk(s') && s'.writers == s.writers && s'.locks == s.locks
  {
    hide FoldMerge;
  }

  lemma ActKeepsInv(calls: seq<Call>, data0: Data, s: State, a: Action)
    requires Inv(calls, data0, s) && Enabled(s, a)
    ensures Inv(calls, data0, Act(calls, s, a))
  {
    match a
    case Write(j) => WriterKeepsInv(calls, data0, s, j);
    case Merge => MergerKeepsInv(calls, data0, s);
    case Choose(f) =>
  }

  // ---- whole runs ----

  predicate Allowed(calls: seq<Call>, s: State, acts: seq<Action>)
    requires |calls| == |s.writers|
    decreases |acts|
  {
    acts == [] || (Enabled(s, acts[0]) && Allowed(calls, Act(calls, s, acts[0]), acts[1..]))
  }

  function After(calls: seq<Call>, s: State, acts: seq<Action>): State
    requires |calls| == |s.writers| && Allowed(calls, s, acts)
    decreases |acts|
  {
    if acts == [] then s else After(calls, Act(calls, s, acts[0]), acts[1..])
  }

  lemma {:induction false} RunKeepsInv(calls: seq<Call>, data0: Data, s: State, acts: seq<Action>)
    requires Inv(calls, data0, s) && Allowed(calls, s, acts)
    ensures Inv(calls, data0, After(calls, s, acts))
    decreases |acts|
  {
    if acts != [] {
      ActKeepsInv(calls, data0, s, acts[0]);
      hide Inv, Act;
      RunKeepsInv(calls, data0, Act(calls, s, acts[0]), acts[1..]);
    }
  }

  lemma RunSound(calls: seq<Call>, s: State, acts: seq<Action>)
    requires Initial(calls, s) && Allowed(calls, s, acts)
    ensures Inv(calls, s.data, After(calls, s, acts))
  {
    assert FoldMerge(s.data, []) == s.data;
    RunKeepsInv(calls, s.data, s, acts);
  }

  /** In no run does a writer open an extras file that exists, or the merger one that is half written. */
  lemma NothingIsLost(calls: seq<Call>, s: State, acts: seq<Action>)
    requires Initial(calls, s) && Allowed(calls, s, acts)
    ensures var s' := After(calls, s, acts);
      && |s'.writers| == |calls|
      && (forall j :: 0 <= j < |s'.writers| && s'.writers[j].Opening? ==> s'.writers[j].i !in s'.files)
      && (s'.merger.Reading? ==> s'.merger.f in s'.files && !s'.files[s'.merger.f].Partial?)
      && (forall j :: 0 <= j < |s'.writers| && HasWritten(s'.writers[j]) ==>
          Pending(s', calls[j].table) || calls[j].table in s'.merged)
  {
    RunSound(calls, s, acts);
    var s' := After(calls, s, acts);
    forall j | 0 <= j < |s'.writers| && s'.writers[j].Opening? ensures s'.writers[j].i !in s'.files {
      assert FileOf(s'.files, s'.writers[j], j);
    }
    if s'.exclusive { NoHalfRead(s'); }
  }

  /** Between merges, the cache file has every key of the old cache and of every merged table. */
  lemma CacheHasEverything(calls: seq<Call>, s: State, acts: seq<Action>, j: nat, h: Key)
    requires Initial(calls, s) && Allowed(calls, s, acts) && j < |s.data|
    requires After(calls, s, acts).merger.Idle?
    ensures var s' := After(calls, s, acts);
      && SameWidth(s.data, s'.merged) && |s'.cache| == |s.data|
      && (h in s.data[j] ==> h in s'.cache[j] && s'.cache[j][h] == s.data[j][h])
      && (forall n :: 0 <= n < |s'.merged| && h in s'.merged[n][j] ==> h in s'.cache[j])
      && (forall n :: 0 <= n < |s'.merged| && FirstWith(s.data, s'.merged, j, h, n) ==>
          s'.cache[j][h] == s'.merged[n][j][h])
  {
    RunSound(calls, s, acts);
    FoldKeepsFirst(s.data, After(calls, s, acts).merged, j, h);
  }

  /** Once the merger has been and left no extras, whatever a process saved is in the cache file. */
  lemma SavedIsCached(calls: seq<Call>, s: State, acts: seq<Action>, k: nat, j: nat, h: Key)
    requires Initial(calls, s) && Allowed(calls, s, acts) && k < |calls| && j < |s.data|
    requires |calls[k].table| == |s.data| && h in calls[k].table[j]
    requires var s' := After(calls, s, acts);
      && s'.merger.Idle? && (forall i :: i in s'.files ==> !s'.files[i].Complete?)
      && |s'.writers| == |calls| && HasWritten(s'.writers[k])
    ensures |After(calls, s, acts).cache| == |s.data| && h in After(calls, s, acts).cache[j]
  {
    NothingIsLost(calls, s, acts);
    CacheHasEverything(calls, s, acts, j, h);
  }
}

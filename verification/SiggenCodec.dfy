/**
 bitbake/lib/bb/cache.py, `SiggenRecipeInfo`: the tables of recipes are pickled by many parsing
 processes and read back by one. Each value is sent in full once per process, and by number after that.
 */
module SiggenCodec {
  import opened Options

  type Key = string
  type Pid = nat

  /** `siggen_varvals` holds text; `siggen_gendeps` and `siggen_taskdeps` hold frozen sets. */
  datatype Value = Text(text: string) | Names(names: set<string>)

  /** A dictionary in its insertion order, or the None that stands in for one. */
  type Dict = seq<(Key, Option<Value>)>
  datatype Deps = NoDeps | Deps(rows: Dict)

  ghost predicate IsDict(d: Dict) {
    forall i, j :: 0 <= i < j < |d| ==> d[i].0 != d[j].0
  }

  ghost predicate IsDeps(t: Deps) {
    t.Deps? ==> IsDict(t.rows)
  }

  /** Setting one key, which keeps its place if it has one. */
  function Put(d: Dict, k: Key, v: Option<Value>): Dict {
    if d == [] then [(k, v)] else if d[0].0 == k then [(k, v)] + d[1..] else [d[0]] + Put(d[1..], k, v)
  }

  lemma {:induction false} PutOld(d: Dict, k: Key, v: Option<Value>, i: nat)
    requires i < |d| && d[i].0 == k && forall j :: 0 <= j < i ==> d[j].0 != k
    ensures Put(d, k, v) == d[i := (k, v)]
    decreases i
  {
    if i > 0 { PutOld(d[1..], k, v, i - 1); }
    assert d == [d[0]] + d[1..];
  }

  lemma {:induction false} PutNew(d: Dict, k: Key, v: Option<Value>)
    requires forall i :: 0 <= i < |d| ==> d[i].0 != k
    ensures Put(d, k, v) == d + [(k, v)]
  {
    if d != [] {
      PutNew(d[1..], k, v);
      assert [d[0]] + d[1..] == d;
    }
  }

  /** The triples `(dep, None, None)`, `(dep, None, mapnum)` and `(dep, fs, mapnum)`. */
  datatype Row = Empty(key: Key) | Ref(key: Key, num: nat) | Def(key: Key, fs: Value, num: nat)
  datatype Sent = NoRows | Rows(rows: seq<Row>)

  // ---- what _save sends ----

  /** `save_map` and `save_count`. */
  datatype Saving = Saving(saved: map<Value, nat>, count: nat)

  const FRESH := Saving(map[], 1)

  function RowFor(st: Saving, dep: (Key, Option<Value>)): Row {
    match dep.1
    case None => Empty(dep.0)
    case Some(fs) => if fs in st.saved then Ref(dep.0, st.saved[fs]) else Def(dep.0, fs, st.count)
  }

  function SavingStep(st: Saving, dep: (Key, Option<Value>)): Saving {
    match dep.1
    case None => st
    case Some(fs) => if fs in st.saved then st else Saving(st.saved[fs := st.count], st.count + 1)
  }

  function SavedDict(st: Saving, d: Dict): Saving {
    if d == [] then st else SavingStep(SavedDict(st, d[..|d| - 1]), d[|d| - 1])
  }

  function Encode(st: Saving, d: Dict): (rows: seq<Row>)
    ensures |rows| == |d|
  {
    if d == [] then [] else
      var init := d[..|d| - 1];
      Encode(st, init) + [RowFor(SavedDict(st, init), d[|d| - 1])]
  }

  function SavedDeps(st: Saving, t: Deps): Saving {
    if t.NoDeps? then st else SavedDict(st, t.rows)
  }

  function EncodeDeps(st: Saving, t: Deps): Sent {
    if t.NoDeps? then NoRows else Rows(Encode(st, t.rows))
  }

  /** A whole stream: the tables of one process, one after the other. */
  function SavedAll(st: Saving, ts: seq<Deps>): Saving {
    if ts == [] then st else SavedDeps(SavedAll(st, ts[..|ts| - 1]), ts[|ts| - 1])
  }

  function EncodeAll(st: Saving, ts: seq<Deps>): (sent: seq<Sent>)
    ensures |sent| == |ts|
  {
    if ts == [] then [] else
      var init := ts[..|ts| - 1];
      EncodeAll(st, init) + [EncodeDeps(SavedAll(st, init), ts[|ts| - 1])]
  }

  // ---- what _restore makes of it ----

  type Known = map<nat, Value>

  /** What one more row does to the reader. */
  function RowKnown(known: Known, row: Row): Known {
    match row
    case Def(_, fs, num) => known[num := fs]
    case _ => known
  }

  function RowDict(known: Known, d: Dict, row: Row): Option<Dict> {
    match row
    case Empty(k) => Some(Put(d, k, None))
    case Ref(k, num) => if num in known then Some(Put(d, k, Some(known[num]))) else None
    case Def(k, fs, _) => Some(Put(d, k, Some(fs)))
  }

  function Learned(m: Known, rows: seq<Row>): Known {
    if rows == [] then m else RowKnown(Learned(m, rows[..|rows| - 1]), rows[|rows| - 1])
  }

  /** The dictionary read back, or None for the KeyError of a number that was never defined. */
  function Decode(m: Known, rows: seq<Row>): Option<Dict> {
    if rows == [] then Some([]) else
      var init := rows[..|rows| - 1];
      match Decode(m, init)
      case None => None
      case Some(ret) => RowDict(Learned(m, init), ret, rows[|rows| - 1])
  }

  function LearnedSent(m: Known, s: Sent): Known {
    if s.NoRows? then m else Learned(m, s.rows)
  }

  function DecodeSent(m: Known, s: Sent): Option<Deps> {
    if s.NoRows? then Some(NoDeps) else
      match Decode(m, s.rows)
      case None => None
      case Some(d) => Some(Deps(d))
  }

  function Lookup(restoreMap: map<Pid, Known>, pid: Pid): Known {
    if pid in restoreMap then restoreMap[pid] else map[]
  }

  class SiggenRecipeInfo {
    var store: map<Value, Value>
    var saveMap: map<Value, nat>
    var saveCount: nat
    var restoreMap: map<Pid, Known>

    ghost predicate Valid() reads this {
      forall fs :: fs in store ==> store[fs] == fs
    }

    ghost function Saver(): Saving reads this { Saving(saveMap, saveCount) }

    ghost function KnownOf(pid: Pid): Known reads this { Lookup(restoreMap, pid) }

    constructor ()
      ensures Valid() && Saver() == FRESH && restoreMap == map[] && store == map[]
    {
      store, saveMap, saveCount, restoreMap := map[], map[], 1, map[];
    }

    method Reset()
      modifies this
      ensures Saver() == FRESH && restoreMap == map[] && store == old(store)
    {
      saveMap, saveCount, restoreMap := map[], 1, map[];
    }

    method Save(deps: Deps) returns (ret: Sent)
      modifies this`saveMap, this`saveCount
      ensures Saver() == SavedDeps(old(Saver()), deps) && ret == EncodeDeps(old(Saver()), deps)
    {
      if deps.NoDeps? || deps.rows == [] {
        return if deps.NoDeps? then NoRows else Rows([]);
      }
      var rows: seq<Row> := [];
      ghost var d, st := deps.rows, Saver();
      for i := 0 to |deps.rows|
        invariant Saver() == SavedDict(st, d[..i]) && rows == Encode(st, d[..i])
      {
        assert d[..i + 1][..i] == d[..i];
        var (dep, value) := deps.rows[i];
        match value {
          case None =>
            rows := rows + [Empty(dep)];
          case Some(fs) =>
            if fs in saveMap {
              rows := rows + [Ref(dep, saveMap[fs])];
            } else {
              saveMap := saveMap[fs := saveCount];
              rows := rows + [Def(dep, fs, saveCount)];
              saveCount := saveCount + 1;
            }
        }
      }
      assert d[..|d|] == d;
      ret := Rows(rows);
    }

    method Restore(deps: Sent, pid: Pid) returns (ret: Option<Deps>)
      requires Valid()
      modifies this`restoreMap, this`store
      ensures Valid() && ret == DecodeSent(old(KnownOf(pid)), deps)
      ensures ret.Some? ==> KnownOf(pid) == LearnedSent(old(KnownOf(pid)), deps)
      ensures restoreMap == old(restoreMap) || restoreMap == old(restoreMap)[pid := KnownOf(pid)]
    {
      if deps.NoRows? { return Some(NoDeps); }
      if deps.rows == [] { return Some(Deps([])); }
      hide Valid, Learned, Decode;
      if pid !in restoreMap { restoreMap := restoreMap[pid := map[]]; }
      var d := RestoreRows(deps.rows, pid);
      ret := if d.None? then None else Some(Deps(d.value));
    }

    /** The loop of `_restore`. */
    method RestoreRows(rows: seq<Row>, pid: Pid) returns (ret: Option<Dict>)
      requires Valid() && pid in restoreMap
      modifies this`restoreMap, this`store
      ensures Valid() && ret == Decode(old(restoreMap[pid]), rows)
      ensures pid in restoreMap && restoreMap == old(restoreMap)[pid := restoreMap[pid]]
      ensures ret.Some? ==> restoreMap[pid] == Learned(old(restoreMap[pid]), rows)
    {
      hide Learned, Decode, RowDict, RowKnown, Valid;
      var d: Dict := [];
      ghost var m := restoreMap[pid];
      ReadNone(m, rows);
      for i := 0 to |rows|
        invariant Valid() && restoreMap == old(restoreMap)[pid := Learned(m, rows[..i])]
        invariant Decode(m, rows[..i]) == Some(d)
      {
        RowStep(m, rows, i);
        var more := RestoreRow(rows[i], pid, d);
        if more.None? {
          DecodeFails(m, rows, i + 1);
          return None;
        }
        d := more.value;
      }
      assert rows[..|rows|] == rows;
      ret := Some(d);
    }

    /** One turn of the loop of `_restore`: the new `ret`, or None for a KeyError. */
    method RestoreRow(row: Row, pid: Pid, d: Dict) returns (ret: Option<Dict>)
      requires Valid() && pid in restoreMap
      modifies this`restoreMap, this`store
      ensures Valid() && ret == RowDict(old(restoreMap[pid]), d, row)
      ensures restoreMap == old(restoreMap)[pid := RowKnown(old(restoreMap[pid]), row)]
    {
      hide Put;
      var known: Known := restoreMap[pid];
      match row {
        case Empty(dep) =>
          ret := Some(Put(d, dep, None));
        case Ref(dep, mapnum) =>
          ret := if mapnum in known then Some(Put(d, dep, Some(known[mapnum]))) else None;
        case Def(dep, value, mapnum) =>
          var fs := value;
          if fs in store { fs := store[fs]; } else { store := store[fs := fs]; }
          known := known[mapnum := fs];
          restoreMap := restoreMap[pid := known];
          ret := Some(Put(d, dep, Some(fs)));
      }
    }
  }

  lemma ReadNone(m: Known, rows: seq<Row>)
    ensures Learned(m, rows[..0]) == m && Decode(m, rows[..0]) == Some([])
  {
  }

  lemma RowStep(m: Known, rows: seq<Row>, i: nat)
    requires i < |rows|
    ensures Learned(m, rows[..i + 1]) == RowKnown(Learned(m, rows[..i]), rows[i])
    ensures Decode(m, rows[..i]).Some? ==>
      Decode(m, rows[..i + 1]) == RowDict(Learned(m, rows[..i]), Decode(m, rows[..i]).value, rows[i])
  {
    assert rows[..i + 1][..i] == rows[..i];
  }

  lemma {:induction false} DecodeFails(m: Known, rows: seq<Row>, n: nat)
    requires n <= |rows| && Decode(m, rows[..n]) == None
    ensures Decode(m, rows) == None
    decreases |rows|
  {
    if n < |rows| {
      var init := rows[..|rows| - 1];
      assert init[..n] == rows[..n];
      DecodeFails(m, init, n);
    } else {
      assert rows[..n] == rows;
    }
  }

  // ---- one stream ----

  /** The reader knows every number the writer may still refer to. */
  ghost predicate Agree(m: Known, st: Saving) {
    forall fs :: fs in st.saved ==> st.saved[fs] < st.count && st.saved[fs] in m && m[st.saved[fs]] == fs
  }

  lemma RowRoundTrip(st: Saving, m: Known, init: Dict, dep: (Key, Option<Value>))
    requires Agree(m, st) && forall i :: 0 <= i < |init| ==> init[i].0 != dep.0
    ensures RowDict(m, init, RowFor(st, dep)) == Some(init + [dep])
    ensures Agree(RowKnown(m, RowFor(st, dep)), SavingStep(st, dep))
  {
    PutNew(init, dep.0, dep.1);
  }

  lemma {:induction false} DictRoundTrip(st: Saving, m: Known, d: Dict)
    requires Agree(m, st) && IsDict(d)
    ensures Decode(m, Encode(st, d)) == Some(d)
    ensures Agree(Learned(m, Encode(st, d)), SavedDict(st, d))
    decreases |d|
  {
    if d != [] {
      hide Agree, RowDict, RowFor, RowKnown, SavingStep;
      var init, last := d[..|d| - 1], d[|d| - 1];
      DictRoundTrip(st, m, init);
      var rows := Encode(st, d);
      assert rows[..|rows| - 1] == Encode(st, init);
      RowRoundTrip(SavedDict(st, init), Learned(m, Encode(st, init)), init, last);
      assert init + [last] == d;
    }
  }

  lemma DepsRoundTrip(st: Saving, m: Known, t: Deps)
    requires Agree(m, st) && IsDeps(t)
    ensures DecodeSent(m, EncodeDeps(st, t)) == Some(t)
    ensures Agree(LearnedSent(m, EncodeDeps(st, t)), SavedDeps(st, t))
  {
    if t.Deps? { DictRoundTrip(st, m, t.rows); }
  }

  // ---- all streams, interleaved ----

  lemma {:induction false} EncodePrefix(st: Saving, ts: seq<Deps>, k: nat)
    requires k <= |ts|
    ensures EncodeAll(st, ts)[..k] == EncodeAll(st, ts[..k])
    decreases |ts|
  {
    if k < |ts| {
      var init := ts[..|ts| - 1];
      EncodePrefix(st, init, k);
      assert init[..k] == ts[..k];
    } else {
      assert ts[..k] == ts;
    }
  }

  lemma EncodeAt(st: Saving, ts: seq<Deps>, k: nat)
    requires k < |ts|
    ensures EncodeAll(st, ts)[k] == EncodeDeps(SavedAll(st, ts[..k]), ts[k])
  {
    EncodePrefix(st, ts, k + 1);
    assert ts[..k + 1][..k] == ts[..k];
    assert EncodeAll(st, ts)[k] == EncodeAll(st, ts)[..k + 1][k];
  }

  function LearnedAll(m: Known, sent: seq<Sent>): Known {
    if sent == [] then m else LearnedSent(LearnedAll(m, sent[..|sent| - 1]), sent[|sent| - 1])
  }

  lemma {:induction false} StreamAgrees(m: Known, ts: seq<Deps>)
    requires forall i :: 0 <= i < |ts| ==> IsDeps(ts[i])
    ensures Agree(LearnedAll(m, EncodeAll(FRESH, ts)), SavedAll(FRESH, ts))
    decreases |ts|
  {
    if ts != [] {
      var init := ts[..|ts| - 1];
      StreamAgrees(m, init);
      DepsRoundTrip(SavedAll(FRESH, init), LearnedAll(m, EncodeAll(FRESH, init)), ts[|ts| - 1]);
      var sent := EncodeAll(FRESH, ts);
      assert sent[..|sent| - 1] == EncodeAll(FRESH, init);
    }
  }

  type Arrivals = seq<(Pid, Sent)>

  /** What came from one process, in the order it came. */
  function From(arrivals: Arrivals, p: Pid): (sent: seq<Sent>)
    ensures |sent| <= |arrivals|
  {
    if arrivals == [] then [] else
      var last := arrivals[|arrivals| - 1];
      From(arrivals[..|arrivals| - 1], p) + if last.0 == p then [last.1] else []
  }

  /** What the reader knows of process `p`; other processes arrive in between. */
  ghost function KnownAfter(known: Pid -> Known, arrivals: Arrivals, p: Pid): Known {
    if arrivals == [] then known(p) else
      var before := KnownAfter(known, arrivals[..|arrivals| - 1], p);
      var last := arrivals[|arrivals| - 1];
      if last.0 == p then LearnedSent(before, last.1) else before
  }

  lemma {:induction false} KnownIsOwnStream(known: Pid -> Known, arrivals: Arrivals, p: Pid)
    ensures KnownAfter(known, arrivals, p) == LearnedAll(known(p), From(arrivals, p))
    decreases |arrivals|
  {
    if arrivals != [] {
      var init := arrivals[..|arrivals| - 1];
      KnownIsOwnStream(known, init, p);
      if arrivals[|arrivals| - 1].0 == p {
        var sent := From(arrivals, p);
        assert sent[..|sent| - 1] == From(init, p);
      } else {
        assert From(arrivals, p) == From(init, p);
      }
    }
  }

  /** An interleaving: each process's arrivals are a prefix of its stream, in its own order. */
  ghost predicate Interleaves(arrivals: Arrivals, tables: Pid -> seq<Deps>) {
    forall p :: From(arrivals, p) <= EncodeAll(FRESH, tables(p))
  }

  lemma {:induction false} FromPrefix(arrivals: Arrivals, i: nat, p: Pid)
    requires i <= |arrivals|
    ensures From(arrivals[..i], p) <= From(arrivals, p)
    decreases |arrivals|
  {
    if i < |arrivals| {
      var init := arrivals[..|arrivals| - 1];
      FromPrefix(init, i, p);
      assert init[..i] == arrivals[..i];
    } else {
      assert arrivals[..i] == arrivals;
    }
  }

  lemma FromAt(arrivals: Arrivals, i: nat)
    requires i < |arrivals|
    ensures |From(arrivals[..i], arrivals[i].0)| < |From(arrivals, arrivals[i].0)|
    ensures From(arrivals, arrivals[i].0)[|From(arrivals[..i], arrivals[i].0)|] == arrivals[i].1
  {
    FromPrefix(arrivals, i + 1, arrivals[i].0);
    assert arrivals[..i + 1][..i] == arrivals[..i];
  }

  /** Which table of its process the arrival `i` must restore to. */
  ghost function Expected(arrivals: Arrivals, tables: Pid -> seq<Deps>, i: nat): Deps
    requires i < |arrivals| && Interleaves(arrivals, tables)
  {
    var p := arrivals[i].0;
    FromAt(arrivals, i);
    tables(p)[|From(arrivals[..i], p)|]
  }

  /**
   Decoding undoes encoding for every interleaving, and whatever the reader knew before: a stream
   that starts from a fresh reset defines each number before it refers to it.
   */
  lemma InterleavedRoundTrip(known: Pid -> Known, arrivals: Arrivals, tables: Pid -> seq<Deps>, i: nat)
    requires Interleaves(arrivals, tables) && i < |arrivals|
    requires forall p, k :: 0 <= k < |tables(p)| ==> IsDeps(tables(p)[k])
    ensures DecodeSent(KnownAfter(known, arrivals[..i], arrivals[i].0), arrivals[i].1)
         == Some(Expected(arrivals, tables, i))
  {
    var p := arrivals[i].0;
    var sent, ts := From(arrivals[..i], p), tables(p);
    FromAt(arrivals, i);
    FromPrefix(arrivals, i, p);
    var k := |sent|;
    EncodePrefix(FRESH, ts, k);
    assert sent == EncodeAll(FRESH, ts)[..k];
    KnownIsOwnStream(known, arrivals[..i], p);
    StreamAgrees(known(p), ts[..k]);
    EncodeAt(FRESH, ts, k);
    DepsRoundTrip(SavedAll(FRESH, ts[..k]), LearnedAll(known(p), sent), ts[k]);
  }

  /** The reader knows what the arrivals so far have told it. */
  ghost predicate Tracks(known: Pid -> Known, restoreMap: map<Pid, Known>, arrivals: Arrivals) {
    forall p :: Lookup(restoreMap, p) == KnownAfter(known, arrivals, p)
  }

  lemma TracksStep(known: Pid -> Known, before: map<Pid, Known>, after: map<Pid, Known>, arrivals: Arrivals, i: nat)
    requires i < |arrivals| && Tracks(known, before, arrivals[..i])
    requires var (p, sent) := arrivals[i];
      && Lookup(after, p) == LearnedSent(Lookup(before, p), sent)
      && (after == before || after == before[p := Lookup(after, p)])
    ensures Tracks(known, after, arrivals[..i + 1])
  {
    assert arrivals[..i + 1][..i] == arrivals[..i];
    forall q ensures Lookup(after, q) == KnownAfter(known, arrivals[..i + 1], q) {
      assert Lookup(before, q) == KnownAfter(known, arrivals[..i], q);
    }
  }

  /** The server unpickling what the parsing processes queue: no lookup of `restore_map` fails. */
  method ReadAll(reader: SiggenRecipeInfo, arrivals: Arrivals, ghost tables: Pid -> seq<Deps>)
      returns (restored: seq<Deps>)
    requires reader.Valid() && Interleaves(arrivals, tables)
    requires forall p, k :: 0 <= k < |tables(p)| ==> IsDeps(tables(p)[k])
    modifies reader`restoreMap, reader`store
    ensures reader.Valid() && |restored| == |arrivals|
    ensures forall i :: 0 <= i < |arrivals| ==> restored[i] == Expected(arrivals, tables, i)
  {
    hide LearnedSent, DecodeSent, IsDeps, KnownAfter, From, EncodeAll, reader.Valid;
    restored := [];
    ghost var before := reader.restoreMap;
    ghost var known: Pid -> Known := p => Lookup(before, p);
    TracksNone(before, arrivals);
    for i := 0 to |arrivals|
      invariant reader.Valid() && |restored| == i
      invariant forall j :: 0 <= j < i ==> restored[j] == Expected(arrivals, tables, j)
      invariant Tracks(known, reader.restoreMap, arrivals[..i])
    {
      InterleavedRoundTrip(known, arrivals, tables, i);
      ghost var was := reader.restoreMap;
      var ret := reader.Restore(arrivals[i].1, arrivals[i].0);
      TracksStep(known, was, reader.restoreMap, arrivals, i);
      restored := restored + [ret.value];
    }
  }

  lemma TracksNone(restoreMap: map<Pid, Known>, arrivals: Arrivals)
    ensures Tracks(p => Lookup(restoreMap, p), restoreMap, arrivals[..0])
  {
  }

  // ---- what a stream costs ----

  function Defs(rows: seq<Row>): seq<Row> {
    if rows == [] then [] else
      Defs(rows[..|rows| - 1]) + if rows[|rows| - 1].Def? then [rows[|rows| - 1]] else []
  }

  function DefsAll(sent: seq<Sent>): seq<Row> {
    if sent == [] then [] else DefsAll(sent[..|sent| - 1]) + DefsOf(sent[|sent| - 1])
  }

  function ValuesOf(d: Dict): set<Value> {
    set i | 0 <= i < |d| && d[i].1.Some? :: d[i].1.value
  }

  /** Rows in full, numbered from `from`: no value twice, and none that was sent before. */
  ghost predicate Numbered(rows: seq<Row>, from: nat, before: set<Value>, after: set<Value>) {
    && (forall i :: 0 <= i < |rows| ==> rows[i].Def? && rows[i].num == from + i && rows[i].fs !in before)
    && (forall i, j :: 0 <= i < j < |rows| ==> rows[i].fs != rows[j].fs)
    && (forall v :: v in after <==> v in before || exists i :: 0 <= i < |rows| && rows[i].fs == v)
  }

  lemma NumberedJoin(a: seq<Row>, b: seq<Row>, from: nat, s0: set<Value>, s1: set<Value>, s2: set<Value>)
    requires Numbered(a, from, s0, s1) && Numbered(b, from + |a|, s1, s2)
    ensures Numbered(a + b, from, s0, s2)
  {
    var c := a + b;
    forall v ensures v in s2 <==> v in s0 || exists i :: 0 <= i < |c| && c[i].fs == v {
      if i :| 0 <= i < |a| && a[i].fs == v { assert c[i].fs == v; }
      if i :| 0 <= i < |b| && b[i].fs == v { assert c[|a| + i].fs == v; }
    }
  }

  lemma RowDefs(st: Saving, dep: (Key, Option<Value>))
    ensures var after := SavingStep(st, dep);
      && Numbered(Defs([RowFor(st, dep)]), st.count, st.saved.Keys, after.saved.Keys)
      && after.saved.Keys == st.saved.Keys + (if dep.1.Some? then {dep.1.value} else {})
      && after.count == st.count + |Defs([RowFor(st, dep)])|
  {
    var rows := Defs([RowFor(st, dep)]);
    if dep.1.Some? && dep.1.value !in st.saved { assert rows[0].fs == dep.1.value; }
  }

  lemma DefsSnoc(rows: seq<Row>, row: Row)
    ensures Defs(rows + [row]) == Defs(rows) + Defs([row])
  {
    assert (rows + [row])[..|rows|] == rows;
  }

  lemma {:induction false} DictDefs(st: Saving, d: Dict)
    ensures Numbered(Defs(Encode(st, d)), st.count, st.saved.Keys, SavedDict(st, d).saved.Keys)
    ensures SavedDict(st, d).saved.Keys == st.saved.Keys + ValuesOf(d)
    ensures SavedDict(st, d).count == st.count + |Defs(Encode(st, d))|
    decreases |d|
  {
    hide Numbered, SavingStep, RowFor, Defs, ValuesOf;
    if d == [] {
      NoDefs(st);
    } else {
      var init, last := d[..|d| - 1], d[|d| - 1];
      DictDefs(st, init);
      var mid := SavedDict(st, init);
      RowDefs(mid, last);
      DefsSnoc(Encode(st, init), RowFor(mid, last));
      NumberedJoin(Defs(Encode(st, init)), Defs([RowFor(mid, last)]), st.count,
                   st.saved.Keys, mid.saved.Keys, SavedDict(st, d).saved.Keys);
      ValuesSnoc(d);
    }
  }

  lemma NoDefs(st: Saving)
    ensures Numbered(Defs(Encode(st, [])), st.count, st.saved.Keys, st.saved.Keys)
    ensures Defs(Encode(st, [])) == [] && ValuesOf([]) == {}
  {
  }

  lemma ValuesSnoc(d: Dict)
    requires d != []
    ensures var last := d[|d| - 1];
      ValuesOf(d) == ValuesOf(d[..|d| - 1]) + (if last.1.Some? then {last.1.value} else {})
  {
  }

  function ValuesOfAll(ts: seq<Deps>): set<Value> {
    set k, v | 0 <= k < |ts| && v in ValuesOfDeps(ts[k]) :: v
  }

  /** A stream carries each distinct value in full exactly once, numbered 1, 2, 3, ... */
  lemma {:induction false} SentOnce(ts: seq<Deps>)
    ensures Numbered(DefsAll(EncodeAll(FRESH, ts)), 1, {}, ValuesOfAll(ts))
    ensures SavedAll(FRESH, ts).saved.Keys == ValuesOfAll(ts)
    ensures SavedAll(FRESH, ts).count == 1 + |DefsAll(EncodeAll(FRESH, ts))|
    decreases |ts|
  {
    if ts != [] {
      hide Numbered, EncodeDeps, SavedDeps, DefsAll, ValuesOfAll;
      var init, t := ts[..|ts| - 1], ts[|ts| - 1];
      SentOnce(init);
      var st := SavedAll(FRESH, init);
      ValuesAllSnoc(ts);
      DefsAllSnoc(EncodeAll(FRESH, init), EncodeDeps(st, t));
      DepsDefs(st, t);
      NumberedJoin(DefsAll(EncodeAll(FRESH, init)), DefsOf(EncodeDeps(st, t)), 1,
                   {}, ValuesOfAll(init), ValuesOfAll(ts));
    }
  }

  function DefsOf(s: Sent): seq<Row> {
    if s.Rows? then Defs(s.rows) else []
  }

  function ValuesOfDeps(t: Deps): set<Value> {
    if t.Deps? then ValuesOf(t.rows) else {}
  }

  lemma DepsDefs(st: Saving, t: Deps)
    ensures Numbered(DefsOf(EncodeDeps(st, t)), st.count, st.saved.Keys, SavedDeps(st, t).saved.Keys)
    ensures SavedDeps(st, t).saved.Keys == st.saved.Keys + ValuesOfDeps(t)
    ensures SavedDeps(st, t).count == st.count + |DefsOf(EncodeDeps(st, t))|
  {
    if t.Deps? { DictDefs(st, t.rows); }
  }

  lemma DefsAllSnoc(sent: seq<Sent>, s: Sent)
    ensures DefsAll(sent + [s]) == DefsAll(sent) + DefsOf(s)
  {
    assert (sent + [s])[..|sent|] == sent;
  }

  lemma ValuesAllSnoc(ts: seq<Deps>)
    requires ts != []
    ensures ValuesOfAll(ts) == ValuesOfAll(ts[..|ts| - 1]) + ValuesOfDeps(ts[|ts| - 1])
  {
  }
}

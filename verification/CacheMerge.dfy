/**
 bitbake/lib/bb/cache.py, `MultiProcessCache`: many processes leave their new cache entries in
 numbered extras files, and one process merges them, under a file lock that is shared by the
 writers and exclusive for the merger.
 */
module CacheMerge {
  import opened Options

  type Key = string
  type Entry = string
  type Table = map<Key, Entry>
  /** The list of dictionaries made by `create_cachedata`; its length belongs to the class. */
  type Data = seq<Table>

  /** What opening an extras file gives: unpickling fails, the version is another, or it has data. */
  datatype File = Partial(job: nat) | Stale | Complete(data: Data)

  // ---- merge_data ----

  /** Entries of `source` that `dest` lacks are added; `dest` keeps its own. */
  function Merged(source: Data, dest: Data): Data
    requires |source| == |dest|
  {
    seq(|dest|, j requires 0 <= j < |dest| => source[j] + dest[j])
  }

  method MergeTable(source: Table, dest: Table) returns (merged: Table)
    ensures merged == source + dest
  {
    merged := dest;
    var todo := source.Keys;
    while todo != {}
      invariant todo <= source.Keys && dest.Keys <= merged.Keys
      invariant forall h :: h in merged <==> h in dest || (h in source && h !in todo)
      invariant forall h :: h in merged ==> merged[h] == if h in dest then dest[h] else source[h]
      decreases todo
    {
      var h :| h in todo;
      if h !in merged { merged := merged[h := source[h]]; }
      todo := todo - {h};
    }
  }

  method MergeData(source: Data, dest: Data) returns (merged: Data)
    requires |source| == |dest|
    ensures merged == Merged(source, dest)
  {
    merged := dest;
    for j := 0 to |dest|
      invariant |merged| == |dest|
      invariant merged[..j] == Merged(source, dest)[..j] && merged[j..] == dest[j..]
    {
      var table := MergeTable(source[j], merged[j]);
      merged := merged[j := table];
      assert merged[..j + 1] == Merged(source, dest)[..j + 1];
    }
  }

  // ---- the two operations ----

  /** The directory of the cache: the extras files by number, and the cache file. */
  class Directory {
    var extras: map<nat, File>
    var cache: Option<Data>

    constructor ()
      ensures extras == map[] && cache == None
    {
      extras, cache := map[], None;
    }
  }

  class MultiProcessCache {
    const width: nat
    var cachedata: Data
    var cachedataExtras: Data

    ghost predicate Valid() reads this {
      |cachedata| == width && |cachedataExtras| == width
    }

    constructor (width: nat)
      ensures Valid() && this.width == width
      ensures cachedata == cachedataExtras == seq(width, i => map[])
    {
      this.width := width;
      cachedata, cachedataExtras := seq(width, i => map[]), seq(width, i => map[]);
    }

    /**
     `save_extras` of process `pid` as far as it can see: `locked` are the numbers that other
     processes hold. The table goes to the first free number, and to no number in use.
     */
    method SaveExtras(dir: Directory, pid: nat, locked: set<nat>) returns (number: Option<nat>)
      requires Valid()
      modifies dir`extras
      ensures number.None? <==> forall j :: 0 <= j < |cachedataExtras| ==> cachedataExtras[j] == map[]
      ensures number.None? ==> dir.extras == old(dir.extras)
      ensures number.Some? ==>
        && number.value >= pid && number.value !in locked && number.value !in old(dir.extras)
        && (forall i :: pid <= i < number.value ==> i in locked || i in old(dir.extras))
        && dir.extras == old(dir.extras)[number.value := Complete(cachedataExtras)]
    {
      var haveData := false;
      for j := 0 to |cachedataExtras|
        invariant haveData <==> exists k :: 0 <= k < j && cachedataExtras[k] != map[]
      {
        if cachedataExtras[j] != map[] { haveData := true; }
      }
      if !haveData { return None; }
      var i := pid;
      ghost var used := dir.extras.Keys + locked;
      while i in locked || i in dir.extras
        invariant i >= pid && dir.extras == old(dir.extras)
        invariant forall k :: pid <= k < i ==> k in locked || k in dir.extras
        decreases |set u | u in used && u >= i|
      {
        FewerAhead(used, i);
        i := i + 1;
      }
      dir.extras := dir.extras[i := Complete(cachedataExtras)];
      number := Some(i);
    }

    /** `save_merge`, with `listing` what `os.listdir` finds. */
    method SaveMerge(dir: Directory, listing: seq<nat>)
      requires Valid() && (forall i :: i in listing <==> i in dir.extras)
      requires forall i, j :: 0 <= i < j < |listing| ==> listing[i] != listing[j]
      requires forall i :: i in dir.extras && dir.extras[i].Complete? ==> |dir.extras[i].data| == width
      modifies this`cachedata, dir
      ensures Valid() && dir.extras == map[]
      ensures cachedata == FoldMerge(old(cachedata), Usable(old(dir.extras), listing))
      ensures dir.cache == if Usable(old(dir.extras), listing) == [] then old(dir.cache) else Some(cachedata)
    {
      hide Usable, FoldMerge, Rest;
      var haveData := false;
      ghost var files, data := dir.extras, cachedata;
      MergeStarts(files, listing, data);
      for k := 0 to |listing|
        invariant |cachedata| == width && dir.cache == old(dir.cache)
        invariant Rest(files, dir.extras, listing, k)
        invariant cachedata == FoldMerge(data, Usable(files, listing[..k]))
        invariant haveData <==> Usable(files, listing[..k]) != []
      {
        RestStep(files, dir.extras, listing, k);
        UsableSnoc(files, listing, k);
        var got := MergeOne(dir, listing[k]);
        if got { FoldSnoc(data, Usable(files, listing[..k]), files[listing[k]].data); }
        haveData := haveData || got;
      }
      RestNone(files, dir.extras, listing);
      assert listing[..|listing|] == listing;
      if haveData { dir.cache := Some(cachedata); }
    }

    /** One file of the listing: merged if it can be read, and removed in any case. */
    method MergeOne(dir: Directory, f: nat) returns (got: bool)
      requires Valid() && f in dir.extras && (dir.extras[f].Complete? ==> |dir.extras[f].data| == width)
      modifies this`cachedata, dir`extras
      ensures Valid() && got == old(dir.extras[f]).Complete?
      ensures cachedata == if got then Merged(old(dir.extras[f]).data, old(cachedata)) else old(cachedata)
      ensures dir.extras == old(dir.extras) - {f}
    {
      got := false;
      match dir.extras[f] {
        case Complete(data) =>
          got := true;
          cachedata := MergeData(data, cachedata);
        case _ =>
      }
      dir.extras := dir.extras - {f};
    }
  }

  lemma FewerAhead(used: set<nat>, i: nat)
    requires i in used
    ensures |set u | u in used && u >= i + 1| < |set u | u in used && u >= i|
  {
    var ahead, rest := set u | u in used && u >= i, set u | u in used && u >= i + 1;
    assert ahead == rest + {i};
  }

  /** The extras still there after the first `k` of the listing are dealt with. */
  ghost predicate Rest(files: map<nat, File>, left: map<nat, File>, listing: seq<nat>, k: nat)
    requires k <= |listing|
  {
    && (forall i :: i in left <==> i in listing[k..])
    && forall i :: i in left ==> i in files && left[i] == files[i]
  }

  lemma RestStep(files: map<nat, File>, left: map<nat, File>, listing: seq<nat>, k: nat)
    requires k < |listing| && Rest(files, left, listing, k)
    requires forall i, j :: 0 <= i < j < |listing| ==> listing[i] != listing[j]
    ensures listing[k] in left && left[listing[k]] == files[listing[k]]
    ensures Rest(files, left - {listing[k]}, listing, k + 1)
  {
    assert listing[k] in listing[k..];
    forall i ensures i in listing[k + 1..] <==> i in listing[k..] && i != listing[k] {
      assert listing[k..] == [listing[k]] + listing[k + 1..];
    }
  }

  lemma RestNone(files: map<nat, File>, left: map<nat, File>, listing: seq<nat>)
    requires Rest(files, left, listing, |listing|)
    ensures left == map[]
  {
  }

  lemma MergeStarts(files: map<nat, File>, listing: seq<nat>, data: Data)
    requires forall i :: i in listing <==> i in files
    ensures Rest(files, files, listing, 0)
    ensures Usable(files, listing[..0]) == [] && data == FoldMerge(data, [])
  {
    assert listing[0..] == listing;
  }

  /** The readable tables of the current version, in the order they are merged. */
  function Usable(files: map<nat, File>, listing: seq<nat>): seq<Data>
    requires forall i :: i in listing ==> i in files
  {
    if listing == [] then [] else
      Usable(files, listing[..|listing| - 1]) +
        match files[listing[|listing| - 1]]
        case Complete(data) => [data]
        case _ => []
  }

  lemma UsableSnoc(files: map<nat, File>, listing: seq<nat>, k: nat)
    requires k < |listing| && forall i :: i in listing ==> i in files
    ensures var before, after := Usable(files, listing[..k]), Usable(files, listing[..k + 1]);
      match files[listing[k]]
      case Complete(data) => after == before + [data]
      case _ => after == before
  {
    assert listing[..k + 1][..k] == listing[..k];
  }

  function FoldMerge(data: Data, tables: seq<Data>): (merged: Data)
    ensures |merged| == |data|
  {
    if tables == [] then data else
      var before, t := FoldMerge(data, tables[..|tables| - 1]), tables[|tables| - 1];
      if |t| == |data| then Merged(t, before) else before
  }

  lemma FoldSnoc(data: Data, tables: seq<Data>, t: Data)
    ensures FoldMerge(data, tables + [t]) ==
      if |t| == |data| then Merged(t, FoldMerge(data, tables)) else FoldMerge(data, tables)
  {
    assert (tables + [t])[..|tables|] == tables;
  }

  /** All tables have the width of the class. */
  ghost predicate SameWidth(data: Data, tables: seq<Data>) {
    forall n :: 0 <= n < |tables| ==> |tables[n]| == |data|
  }

  ghost predicate FirstWith(data: Data, tables: seq<Data>, j: nat, h: Key, n: nat)
    requires SameWidth(data, tables) && j < |data| && n < |tables|
  {
    h in tables[n][j] && h !in data[j] && forall m :: 0 <= m < n ==> h !in tables[m][j]
  }

  /** Existing bindings win: a key keeps the entry of the first table that has it, the old cache first. */
  lemma {:induction false} FoldKeepsFirst(data: Data, tables: seq<Data>, j: nat, h: Key)
    requires SameWidth(data, tables) && j < |data|
    ensures var merged := FoldMerge(data, tables)[j];
      && (h in data[j] ==> h in merged && merged[h] == data[j][h])
      && (forall n :: 0 <= n < |tables| && h in tables[n][j] ==> h in merged)
      && (forall n :: 0 <= n < |tables| && FirstWith(data, tables, j, h, n) ==> merged[h] == tables[n][j][h])
      && (h in merged ==> h in data[j] || exists n :: 0 <= n < |tables| && h in tables[n][j])
    decreases |tables|
  {
    if tables != [] {
      var init, last := tables[..|tables| - 1], |tables| - 1;
      assert forall n :: 0 <= n < last ==> init[n] == tables[n];
      assert forall n :: 0 <= n < last ==> (FirstWith(data, init, j, h, n) <==> FirstWith(data, tables, j, h, n));
      FoldKeepsFirst(data, init, j, h);
    }
  }
}

/**
 bitbake/lib/bb/providers.py: how the recipes of one name are ranked, by layer priority, default
 preference and version. `utils.vercmp(a, b) < 0` is the strict weak order `less`.
 */
module Ranking {
  import opened Options

  type File = string

  datatype Version = Version(pe: string, pv: string, pr: string)
  datatype Info = Info(pn: string, priority: int, preference: int, version: Version)

  /** The part of the cache that provider selection reads. */
  datatype Cache = Cache(info: File -> Info, less: (Version, Version) -> bool)

  ghost predicate StrictWeak(less: (Version, Version) -> bool) {
    && (forall a :: !less(a, a))
    && (forall a, b, c :: less(a, b) && less(b, c) ==> less(a, c))
    && (forall a, b, c :: less(a, c) ==> less(a, b) || less(b, c))
  }

  // ---- the files of one priority and preference ----

  function Having(c: Cache, files: seq<File>, p: int, q: int): seq<File> {
    if files == [] then [] else
      var last := files[|files| - 1];
      Having(c, files[..|files| - 1], p, q) +
        if c.info(last).priority == p && c.info(last).preference == q then [last] else []
  }

  lemma {:induction false} HavingElem(c: Cache, files: seq<File>, p: int, q: int, f: File)
    ensures f in Having(c, files, p, q) <==> f in files && c.info(f).priority == p && c.info(f).preference == q
    decreases |files|
  {
    if files != [] {
      HavingElem(c, files[..|files| - 1], p, q, f);
      assert files == files[..|files| - 1] + [files[|files| - 1]];
    }
  }

  lemma {:induction false} HavingJoin(c: Cache, a: seq<File>, b: seq<File>, p: int, q: int)
    ensures Having(c, a + b, p, q) == Having(c, a, p, q) + Having(c, b, p, q)
    decreases |b|
  {
    if b == [] {
      assert a + b == a;
    } else {
      HavingJoin(c, a, b[..|b| - 1], p, q);
      assert (a + b)[..|a + b| - 1] == a + b[..|b| - 1];
    }
  }

  lemma {:induction false} HavingAllOrNone(c: Cache, files: seq<File>, p: int, q: int, p': int, q': int)
    requires forall f :: f in files ==> c.info(f).priority == p && c.info(f).preference == q
    ensures Having(c, files, p', q') == if p' == p && q' == q then files else []
    decreases |files|
  {
    if files != [] { HavingAllOrNone(c, files[..|files| - 1], p, q, p', q'); }
  }

  // ---- sorted(...) on the keys ----

  ghost predicate Ascending(s: seq<int>) {
    forall i, j :: 0 <= i < j < |s| ==> s[i] < s[j]
  }

  function InsertInt(s: seq<int>, k: int): seq<int> {
    if s == [] then [k] else if k < s[0] then [k] + s else [s[0]] + InsertInt(s[1..], k)
  }

  lemma {:induction false} InsertIntSorts(s: seq<int>, k: int)
    requires Ascending(s) && k !in s
    ensures Ascending(InsertInt(s, k)) && forall x :: x in InsertInt(s, k) <==> x == k || x in s
  {
    if s != [] {
      assert s == [s[0]] + s[1..];
      if k > s[0] {
        var t := InsertInt(s[1..], k);
        assert Ascending(s[1..]);
        InsertIntSorts(s[1..], k);
        PrependInt(s[0], s[1..], t, k);
      }
    }
  }

  lemma PrependInt(x: int, rest: seq<int>, t: seq<int>, k: int)
    requires Ascending([x] + rest) && Ascending(t) && x < k && forall y :: y in t <==> y == k || y in rest
    ensures Ascending([x] + t)
  {
    forall j | 0 <= j < |t| ensures x < t[j] {
      assert t[j] in t;
      if t[j] != k {
        var whole, i :| whole == [x] + rest && 0 <= i < |rest| && rest[i] == t[j];
        assert whole[0] == x && whole[i + 1] == t[j];
      }
    }
  }

  lemma SomeInt(s: set<int>)
    ensures s == {} || exists k :: k in s
  {
    if forall k :: k !in s { assert s == {}; }
  }

  method SortInts(keys: set<int>) returns (s: seq<int>)
    ensures Ascending(s) && forall x :: x in s <==> x in keys
  {
    s := [];
    var todo := keys;
    while todo != {}
      invariant todo <= keys && Ascending(s)
      invariant forall x :: x in s <==> x in keys && x !in todo
      decreases todo
    {
      SomeInt(todo);
      var k :| k in todo;
      InsertIntSorts(s, k);
      s := InsertInt(s, k);
      todo := todo - {k};
    }
  }

  // ---- sortPriorities ----

  type Row = map<int, seq<File>>
  type Rows = map<int, Row>

  function Cell(rows: Rows, p: int, q: int): seq<File> {
    if p in rows && q in rows[p] then rows[p][q] else []
  }

  /** The dictionaries hold what there is of each priority and preference, and nothing empty. */
  ghost predicate RowsOf(c: Cache, files: seq<File>, rows: Rows) {
    && (forall p, q :: Cell(rows, p, q) == Having(c, files, p, q))
    && (forall p :: p in rows ==> rows[p] != map[])
    && forall p, q :: p in rows && q in rows[p] ==> rows[p][q] != []
  }

  /** The dictionaries after one more file. */
  lemma CollateStep(c: Cache, files: seq<File>, f: File, rows: Rows, row: Row)
    requires RowsOf(c, files, rows)
    requires row == if c.info(f).priority in rows then rows[c.info(f).priority] else map[]
    ensures var (p, q) := (c.info(f).priority, c.info(f).preference);
      RowsOf(c, files + [f], rows[p := row[q := Cell(rows, p, q) + [f]]])
  {
    var p, q := c.info(f).priority, c.info(f).preference;
    var after := rows[p := row[q := Cell(rows, p, q) + [f]]];
    assert q in after[p];
    assert (files + [f])[..|files|] == files;
    forall p', q' ensures Cell(after, p', q') == Having(c, files + [f], p', q') {
      assert Cell(rows, p', q') == Having(c, files, p', q');
    }
  }

  method Collate(c: Cache, files: seq<File>) returns (rows: Rows)
    ensures RowsOf(c, files, rows)
  {
    hide Having, RowsOf;
    rows := map[];
    assert RowsOf(c, files[..0], rows) by { NoRows(c); }
    for i := 0 to |files|
      invariant RowsOf(c, files[..i], rows)
    {
      assert files[..i + 1] == files[..i] + [files[i]];
      var f := files[i];
      var priority, preference := c.info(f).priority, c.info(f).preference;
      var row: Row := if priority in rows then rows[priority] else map[];
      var cell := if preference in row then row[preference] else [];
      CollateStep(c, files[..i], f, rows, row);
      rows := rows[priority := row[preference := cell + [f]]];
    }
    assert files[..|files|] == files;
  }

  lemma NoRows(c: Cache)
    ensures RowsOf(c, [], map[])
  {
  }

  /** One list of `tmp_pn`: all files of one priority, by rising preference, otherwise as listed. */
  ghost predicate IsGroup(c: Cache, files: seq<File>, group: seq<File>, p: int) {
    && group != []
    && (forall f :: f in group ==> c.info(f).priority == p)
    && (forall q :: Having(c, group, p, q) == Having(c, files, p, q))
    && forall i, j :: 0 <= i < j < |group| ==> c.info(group[i]).preference <= c.info(group[j]).preference
  }

  /** The lists of the first `k` preferences have been joined. */
  ghost predicate Joined(c: Cache, files: seq<File>, p: int, prefs: seq<int>, k: nat, group: seq<File>)
    requires k <= |prefs|
  {
    && (forall f :: f in group ==> c.info(f).priority == p && c.info(f).preference in prefs[..k])
    && (forall q :: Having(c, group, p, q) == if q in prefs[..k] then Having(c, files, p, q) else [])
    && (forall i, j :: 0 <= i < j < |group| ==> c.info(group[i]).preference <= c.info(group[j]).preference)
    && (k > 0 ==> group != [])
  }

  method JoinRow(c: Cache, ghost files: seq<File>, rows: Rows, p: int) returns (group: seq<File>)
    requires RowsOf(c, files, rows) && p in rows
    ensures IsGroup(c, files, group, p)
  {
    hide RowsOf, Joined;
    group := [];
    var prefs := SortInts(rows[p].Keys);
    assert Joined(c, files, p, prefs, 0, group) by { JoinedNone(c, files, p, prefs); }
    for k := 0 to |prefs|
      invariant Joined(c, files, p, prefs, k, group)
    {
      assert prefs[k] in prefs;
      RowIs(c, files, rows, p, prefs[k]);
      JoinedStep(c, files, p, prefs, k, group);
      group := group + rows[p][prefs[k]];
    }
    JoinedAll(c, files, rows, p, prefs, group);
  }

  lemma JoinedNone(c: Cache, files: seq<File>, p: int, prefs: seq<int>)
    ensures Joined(c, files, p, prefs, 0, [])
  {
  }

  lemma RowIs(c: Cache, files: seq<File>, rows: Rows, p: int, q: int)
    requires RowsOf(c, files, rows) && p in rows && q in rows[p]
    ensures rows[p][q] == Having(c, files, p, q) && rows[p][q] != []
  {
    assert rows[p][q] == Cell(rows, p, q);
  }

  lemma RowPreference(c: Cache, files: seq<File>, p: int, q: int)
    ensures forall f :: f in Having(c, files, p, q) ==> c.info(f).priority == p && c.info(f).preference == q
  {
    forall f | f in Having(c, files, p, q) ensures c.info(f).priority == p && c.info(f).preference == q {
      HavingElem(c, files, p, q, f);
    }
  }

  lemma JoinedHaving(c: Cache, files: seq<File>, p: int, prefs: seq<int>, k: nat, group: seq<File>, q: int)
    requires k < |prefs| && Ascending(prefs)
    requires Having(c, group, p, q) == if q in prefs[..k] then Having(c, files, p, q) else []
    ensures Having(c, group + Having(c, files, p, prefs[k]), p, q)
         == if q in prefs[..k + 1] then Having(c, files, p, q) else []
  {
    hide Having;
    var row := Having(c, files, p, prefs[k]);
    RowPreference(c, files, p, prefs[k]);
    HavingJoin(c, group, row, p, q);
    HavingAllOrNone(c, row, p, prefs[k], p, q);
    NotBefore(prefs, k);
    hide Ascending;
    assert prefs[..k + 1] == prefs[..k] + [prefs[k]];
    assert forall s: seq<File> :: s + [] == s && [] + s == s;
  }

  lemma NotBefore(prefs: seq<int>, k: nat)
    requires k < |prefs| && Ascending(prefs)
    ensures prefs[k] !in prefs[..k]
  {
  }

  lemma JoinedOrder(c: Cache, group: seq<File>, row: seq<File>, q: int)
    requires forall i, j :: 0 <= i < j < |group| ==> c.info(group[i]).preference <= c.info(group[j]).preference
    requires forall f :: f in group ==> c.info(f).preference < q
    requires forall f :: f in row ==> c.info(f).preference == q
    ensures var after := group + row;
      forall i, j :: 0 <= i < j < |after| ==> c.info(after[i]).preference <= c.info(after[j]).preference
  {
    var after := group + row;
    forall i, j | 0 <= i < j < |after| ensures c.info(after[i]).preference <= c.info(after[j]).preference {
      if j >= |group| {
        assert after[j] in row;
        assert after[i] in group || after[i] in row;
      }
    }
  }

  lemma JoinedStep(c: Cache, files: seq<File>, p: int, prefs: seq<int>, k: nat, group: seq<File>)
    requires k < |prefs| && Ascending(prefs) && Joined(c, files, p, prefs, k, group)
    requires Having(c, files, p, prefs[k]) != []
    ensures Joined(c, files, p, prefs, k + 1, group + Having(c, files, p, prefs[k]))
  {
    hide Having;
    var row := Having(c, files, p, prefs[k]);
    assert prefs[..k + 1] == prefs[..k] + [prefs[k]];
    RowPreference(c, files, p, prefs[k]);
    forall q ensures Having(c, group + row, p, q) == if q in prefs[..k + 1] then Having(c, files, p, q) else [] {
      JoinedHaving(c, files, p, prefs, k, group, q);
    }
    JoinedOrder(c, group, row, prefs[k]);
  }

  lemma JoinedAll(c: Cache, files: seq<File>, rows: Rows, p: int, prefs: seq<int>, group: seq<File>)
    requires RowsOf(c, files, rows) && p in rows && forall q :: q in prefs <==> q in rows[p]
    requires Joined(c, files, p, prefs, |prefs|, group)
    ensures IsGroup(c, files, group, p)
  {
    assert prefs[..|prefs|] == prefs;
    forall q ensures Having(c, group, p, q) == Having(c, files, p, q) {
      assert Cell(rows, p, q) == Having(c, files, p, q);
    }
    SomeInt(rows[p].Keys);
    var q :| q in rows[p].Keys;
    assert q in prefs;
  }

  /** `sortPriorities`: one group for each priority, the highest first. */
  ghost predicate AreGroups(c: Cache, files: seq<File>, groups: seq<seq<File>>, pris: seq<int>) {
    && |groups| == |pris|
    && (forall k :: 0 <= k < |groups| ==> IsGroup(c, files, groups[k], pris[k]))
    && (forall i, j :: 0 <= i < j < |pris| ==> pris[i] > pris[j])
    && forall f :: f in files ==> c.info(f).priority in pris
  }

  type Groups = seq<seq<File>>

  ghost predicate Grouped(c: Cache, files: seq<File>, groups: Groups) {
    exists pris :: AreGroups(c, files, groups, pris)
  }

  method SortPriorities(c: Cache, files: seq<File>) returns (groups: Groups)
    ensures Grouped(c, files, groups)
  {
    hide IsGroup, RowsOf;
    var rows := Collate(c, files);
    var sorted := SortInts(rows.Keys);
    groups := [];
    ghost var pris: seq<int> := [];
    for k := 0 to |sorted|
      invariant |groups| == |pris| == k
      invariant forall m :: 0 <= m < k ==> pris[m] == sorted[k - 1 - m] && IsGroup(c, files, groups[m], pris[m])
    {
      assert sorted[k] in sorted;
      var group := JoinRow(c, files, rows, sorted[k]);
      groups, pris := [group] + groups, [sorted[k]] + pris;
    }
    forall f | f in files ensures c.info(f).priority in pris {
      RowOfFile(c, files, rows, f);
      var m :| 0 <= m < |sorted| && sorted[m] == c.info(f).priority;
      assert pris[|sorted| - 1 - m] == sorted[m];
    }
    assert AreGroups(c, files, groups, pris);
  }

  lemma RowOfFile(c: Cache, files: seq<File>, rows: Rows, f: File)
    requires RowsOf(c, files, rows) && f in files
    ensures c.info(f).priority in rows
  {
    var p, q := c.info(f).priority, c.info(f).preference;
    HavingElem(c, files, p, q, f);
    assert Cell(rows, p, q) == Having(c, files, p, q);
  }

  // ---- the selection loops ----

  /** A higher default preference wins, then a higher version. */
  predicate Newer(c: Cache, a: File, b: File) {
    c.info(a).preference > c.info(b).preference
    || (c.info(a).preference == c.info(b).preference && c.less(c.info(b).version, c.info(a).version))
  }

  /** `best` stands at `k`, nothing in the list beats it, and it beats all that stand before it. */
  ghost predicate FirstBest(files: seq<File>, k: nat, beats: (File, File) -> bool) {
    && k < |files|
    && (forall j :: 0 <= j < |files| ==> !beats(files[j], files[k]))
    && forall j :: 0 <= j < k ==> beats(files[k], files[j])
  }

  ghost function NewerOrder(c: Cache): (File, File) -> bool {
    (a: File, b: File) => Newer(c, a, b)
  }

  /** `findLatestProvider`. */
  method FindLatest(c: Cache, fileSet: seq<File>) returns (latest: Option<File>, ghost k: nat)
    requires StrictWeak(c.less)
    ensures latest.None? <==> fileSet == []
    ensures latest.Some? ==> FirstBest(fileSet, k, NewerOrder(c)) && latest.value == fileSet[k]
  {
    latest, k := None, 0;
    for i := 0 to |fileSet|
      invariant latest.None? <==> i == 0
      invariant latest.Some? ==> k < i && latest.value == fileSet[k]
      invariant latest.Some? ==> forall j :: 0 <= j < i ==> !Newer(c, fileSet[j], fileSet[k])
      invariant latest.Some? ==> forall j :: 0 <= j < k ==> Newer(c, fileSet[k], fileSet[j])
    {
      var fileName := fileSet[i];
      if latest.None?
        || (c.info(latest.value).preference == c.info(fileName).preference
            && c.less(c.info(latest.value).version, c.info(fileName).version))
        || c.info(fileName).preference > c.info(latest.value).preference
      {
        latest, k := Some(fileName), i;
      }
    }
  }

  /** A REQUIRED_VERSION or PREFERRED_VERSION, taken apart. */
  datatype Wanted = Wanted(e: Option<string>, v: string, r: Option<string>)

  /** `preferredVersionMatch`. */
  predicate Matches(v: Version, w: Wanted) {
    && (w.r.Some? ==> v.pr == w.r.value)
    && (w.e.Some? ==> v.pe == w.e.value)
    && (w.v == v.pv || (w.v != "" && w.v[|w.v| - 1] == '%' && w.v[..|w.v| - 1] <= v.pv))
  }

  /**
   A version matches a setting exactly if the epoch and the revision are those it gives, if it gives any,
   and the version is the one it gives, or begins with what it gives before a `%` at the end.
   */
  lemma MatchesIff(v: Version, w: Wanted)
    ensures Matches(v, w) <==>
      w.e in {None, Some(v.pe)} && w.r in {None, Some(v.pr)} && (w.v == v.pv || Wildcard(w.v, v.pv))
  {
    hide Wildcard;
    WildcardIff(w.v, v.pv);
  }

  /** The pattern is a start of the version, and a `%`. */
  ghost predicate Wildcard(pattern: string, version: string) {
    exists start, rest :: pattern == start + "%" && version == start + rest
  }

  lemma WildcardIff(pattern: string, version: string)
    ensures Wildcard(pattern, version) <==>
      pattern != "" && pattern[|pattern| - 1] == '%' && pattern[..|pattern| - 1] <= version
  {
    if pattern != "" && pattern[|pattern| - 1] == '%' && pattern[..|pattern| - 1] <= version {
      var start := pattern[..|pattern| - 1];
      assert pattern == start + "%" && version == start + version[|start|..];
    }
    if Wildcard(pattern, version) {
      var start, rest :| pattern == start + "%" && version == start + rest;
      assert pattern[..|pattern| - 1] == start && pattern[|pattern| - 1] == '%' && start <= version;
    }
  }

  /** The first loop of `findPreferredProvider` stops at the first match. */
  ghost predicate FirstMatch(c: Cache, groups: Groups, w: Wanted, a: nat, b: nat) {
    && a < |groups| && b < |groups[a]| && Matches(c.info(groups[a][b]).version, w)
    && NoMatchBefore(c, groups, w, a) && (forall f :: f in groups[a][..b] ==> !Matches(c.info(f).version, w))
  }

  ghost predicate NoMatchBefore(c: Cache, groups: Groups, w: Wanted, n: nat)
    requires n <= |groups|
  {
    forall m, f :: 0 <= m < n && f in groups[m] ==> !Matches(c.info(f).version, w)
  }

  method FindPreferred(c: Cache, groups: Groups, w: Wanted) returns (preferred: Option<File>, ghost a: nat,
      ghost b: nat)
    ensures preferred.None? ==> NoMatchBefore(c, groups, w, |groups|)
    ensures preferred.Some? ==> FirstMatch(c, groups, w, a, b) && preferred.value == groups[a][b]
  {
    preferred, a, b := None, 0, 0;
    for m := 0 to |groups|
      invariant NoMatchBefore(c, groups, w, m)
    {
      for n := 0 to |groups[m]|
        invariant forall f :: f in groups[m][..n] ==> !Matches(c.info(f).version, w)
      {
        var f := groups[m][n];
        if Matches(c.info(f).version, w) { return Some(f), m, n; }
        assert groups[m][..n + 1] == groups[m][..n] + [f];
      }
      assert groups[m][..|groups[m]|] == groups[m];
    }
  }

  // ---- what the loops find, in terms of the files as listed ----

  /** Layer priority first, then default preference, then version. */
  ghost function BestOrder(c: Cache): (File, File) -> bool {
    (a: File, b: File) =>
      c.info(a).priority > c.info(b).priority || (c.info(a).priority == c.info(b).priority && Newer(c, a, b))
  }

  /** A match beats what does not match; then the layer priority; then the LOWER default preference. */
  ghost function PreferredOrder(c: Cache, w: Wanted): (File, File) -> bool {
    (a: File, b: File) =>
      Matches(c.info(a).version, w) &&
      (!Matches(c.info(b).version, w) || c.info(a).priority > c.info(b).priority ||
       (c.info(a).priority == c.info(b).priority && c.info(a).preference < c.info(b).preference))
  }

  lemma {:induction false} FirstOccurrence(s: seq<File>, f: File) returns (k: nat)
    requires f in s
    ensures k < |s| && s[k] == f && f !in s[..k]
  {
    var init, last := s[..|s| - 1], s[|s| - 1];
    if f in init {
      k := FirstOccurrence(init, f);
      assert init[..k] == s[..k];
    } else {
      assert s == init + [last];
      k := |s| - 1;
    }
  }

  lemma OccursIn(s: seq<File>, n: nat, c: seq<File>, f: File)
    requires c <= s && n < |s| && s[n] == f
    ensures n < |c| ==> f in c
  {
    if n < |c| { assert c[n] == f; }
  }

  lemma SplitOnce(a: seq<File>, b: seq<File>, c: seq<File>, d: seq<File>, f: File)
    requires a + [f] + b == c + [f] + d && f !in a && f !in c
    ensures a == c
  {
    var s := a + [f] + b;
    assert s[|a|] == f && s[|c|] == f;
    OccursIn(s, |a|, c, f);
    OccursIn(s, |c|, a, f);
    assert a == s[..|a|] && c == s[..|c|];
  }

  lemma HavingAround(c: Cache, s: seq<File>, k: nat, p: int, q: int)
    requires k < |s| && c.info(s[k]).priority == p && c.info(s[k]).preference == q
    ensures Having(c, s, p, q) == Having(c, s[..k], p, q) + [s[k]] + Having(c, s[k + 1..], p, q)
  {
    assert s == s[..k] + [s[k]] + s[k + 1..];
    HavingJoin(c, s[..k] + [s[k]], s[k + 1..], p, q);
    HavingJoin(c, s[..k], [s[k]], p, q);
    assert Having(c, [s[k]], p, q) == [s[k]];
  }

  /** Of one priority and preference, a group keeps the order in which the files are listed. */
  lemma BeforeInGroup(c: Cache, files: seq<File>, group: seq<File>, k: nat, b: nat, g: File)
    requires k < |files| && b < |group| && files[k] == group[b] && files[k] !in files[..k] && files[k] !in group[..b]
    requires IsGroup(c, files, group, c.info(files[k]).priority) && g in files[..k]
    requires c.info(g).priority == c.info(files[k]).priority && c.info(g).preference == c.info(files[k]).preference
    ensures g in group[..b]
  {
    var f := files[k];
    var p, q := c.info(f).priority, c.info(f).preference;
    HavingAround(c, files, k, p, q);
    HavingAround(c, group, b, p, q);
    HavingElem(c, files[..k], p, q, f);
    HavingElem(c, group[..b], p, q, f);
    SplitOnce(Having(c, files[..k], p, q), Having(c, files[k + 1..], p, q),
              Having(c, group[..b], p, q), Having(c, group[b + 1..], p, q), f);
    HavingElem(c, files[..k], p, q, g);
    HavingElem(c, group[..b], p, q, g);
  }

  lemma InGroup(c: Cache, files: seq<File>, group: seq<File>, p: int, f: File)
    requires IsGroup(c, files, group, p)
    ensures f in group <==> f in files && c.info(f).priority == p
  {
    if c.info(f).priority == p {
      HavingElem(c, files, p, c.info(f).preference, f);
      HavingElem(c, group, p, c.info(f).preference, f);
    }
  }

  /** The latest of the first group is the best of all files, the earliest listed one on ties. */
  lemma LatestIsBest(c: Cache, files: seq<File>, groups: Groups, pris: seq<int>, b: nat) returns (k: nat)
    requires StrictWeak(c.less) && AreGroups(c, files, groups, pris) && groups != []
    requires FirstBest(groups[0], b, NewerOrder(c))
    ensures FirstBest(files, k, BestOrder(c)) && files[k] == groups[0][b]
  {
    var group, p := groups[0], pris[0];
    var f := group[b];
    InGroup(c, files, group, p, f);
    k := FirstOccurrence(files, f);
    assert f !in group[..b];
    forall j | 0 <= j < |files|
      ensures !BestOrder(c)(files[j], f) && (j < k ==> BestOrder(c)(f, files[j]))
    {
      var g := files[j];
      assert c.info(g).priority in pris;
      InGroup(c, files, group, p, g);
      if c.info(g).priority == p {
        var i :| 0 <= i < |group| && group[i] == g;
        if j < k && c.info(g).preference == c.info(f).preference {
          assert g in files[..k];
          BeforeInGroup(c, files, group, k, b, g);
        }
      }
    }
  }

  /** The first match is the best match of all files. */
  lemma FirstMatchIsBest(c: Cache, files: seq<File>, groups: Groups, pris: seq<int>, w: Wanted, a: nat,
      b: nat) returns (k: nat)
    requires AreGroups(c, files, groups, pris) && FirstMatch(c, groups, w, a, b)
    ensures FirstBest(files, k, PreferredOrder(c, w)) && files[k] == groups[a][b]
  {
    var group, p := groups[a], pris[a];
    var f := group[b];
    InGroup(c, files, group, p, f);
    k := FirstOccurrence(files, f);
    forall j | 0 <= j < |files|
      ensures !PreferredOrder(c, w)(files[j], f) && (j < k ==> PreferredOrder(c, w)(f, files[j]))
    {
      if Matches(c.info(files[j]).version, w) {
        MatchIsBehind(c, files, groups, pris, w, a, b, files[j]);
        if j < k && c.info(files[j]).priority == p && c.info(files[j]).preference == c.info(f).preference {
          assert files[j] in files[..k];
          BeforeInGroup(c, files, group, k, b, files[j]);
        }
      }
    }
  }

  lemma MatchIsBehind(c: Cache, files: seq<File>, groups: Groups, pris: seq<int>, w: Wanted, a: nat, b: nat, g: File)
    requires AreGroups(c, files, groups, pris) && FirstMatch(c, groups, w, a, b)
    requires g in files && Matches(c.info(g).version, w)
    ensures c.info(g).priority <= pris[a]
    ensures c.info(g).priority == pris[a] ==> c.info(g).preference >= c.info(groups[a][b]).preference
  {
    hide Matches, IsGroup;
    var m :| 0 <= m < |pris| && pris[m] == c.info(g).priority;
    assert m < a ==> g !in groups[m];
    InGroup(c, files, groups[m], pris[m], g);
    if m == a { BehindInGroup(c, files, groups[a], pris[a], b, g); }
  }

  lemma BehindInGroup(c: Cache, files: seq<File>, group: seq<File>, p: int, b: nat, g: File)
    requires IsGroup(c, files, group, p) && b < |group| && g in group && g !in group[..b]
    ensures c.info(g).preference >= c.info(group[b]).preference
  {
    var i :| 0 <= i < |group| && group[i] == g;
    OccursIn(group, i, group[..b], g);
  }

  lemma NoMatchAtAll(c: Cache, files: seq<File>, groups: Groups, pris: seq<int>, w: Wanted)
    requires AreGroups(c, files, groups, pris) && NoMatchBefore(c, groups, w, |groups|)
    ensures forall f :: f in files ==> !Matches(c.info(f).version, w)
  {
    forall f | f in files ensures !Matches(c.info(f).version, w) {
      var m :| 0 <= m < |pris| && pris[m] == c.info(f).priority;
      InGroup(c, files, groups[m], pris[m], f);
    }
  }
}

/**
 bitbake/lib/bb/providers.py, `_filterProviders` and `filterProviders`: one recipe file of each name
 that provides an item, in the order in which they are to be tried.
 */
module Providers {
  import opened Lists
  import opened Options
  import opened Ranking
  import opened Sorting

  /** REQUIRED_VERSION or else PREFERRED_VERSION of a name; an empty required version wants nothing. */
  datatype Setting = Setting(required: bool, wanted: Option<Wanted>)

  /** `findPreferredProvider` and `findLatestProvider` for the files of one name. */
  datatype Pick = Matched(file: File) | Best(file: File) | Unavailable

  ghost predicate Wins(files: seq<File>, f: File, beats: (File, File) -> bool) {
    exists k: nat :: FirstBest(files, k, beats) && files[k] == f
  }

  /** What the versions of the settings and the ranking make of the files of one name. */
  ghost predicate IsPick(c: Cache, files: seq<File>, s: Setting, pick: Pick) {
    match pick
    case Matched(f) =>
      s.wanted.Some? && Matches(c.info(f).version, s.wanted.value) && Wins(files, f, PreferredOrder(c, s.wanted.value))
    case Best(f) => !s.required && NoneMatches(c, files, s) && Wins(files, f, BestOrder(c))
    case Unavailable => s.required && NoneMatches(c, files, s)
  }

  ghost predicate NoneMatches(c: Cache, files: seq<File>, s: Setting) {
    s.wanted.Some? ==> forall f :: f in files ==> !Matches(c.info(f).version, s.wanted.value)
  }

  lemma WinsIsUnique(files: seq<File>, f: File, g: File, beats: (File, File) -> bool)
    requires Wins(files, f, beats) && Wins(files, g, beats)
    ensures f == g
  {
    var k: nat :| FirstBest(files, k, beats) && files[k] == f;
    var m: nat :| FirstBest(files, m, beats) && files[m] == g;
  }

  /** There is one answer. */
  lemma PickIsUnique(c: Cache, files: seq<File>, s: Setting, p: Pick, q: Pick)
    requires IsPick(c, files, s, p) && IsPick(c, files, s, q)
    ensures p == q
  {
    if p.Matched? { MatchedIsListed(c, files, s, p.file); }
    if q.Matched? { MatchedIsListed(c, files, s, q.file); }
    if p.Matched? && q.Matched? {
      WinsIsUnique(files, p.file, q.file, PreferredOrder(c, s.wanted.value));
    } else if p.Best? && q.Best? {
      WinsIsUnique(files, p.file, q.file, BestOrder(c));
    }
  }

  lemma MatchedIsListed(c: Cache, files: seq<File>, s: Setting, f: File)
    requires IsPick(c, files, s, Matched(f))
    ensures f in files && !NoneMatches(c, files, s)
  {
    var k: nat :| FirstBest(files, k, PreferredOrder(c, s.wanted.value)) && files[k] == f;
  }

  /** A match of the highest layer priority that any match has. */
  ghost predicate Top(c: Cache, files: seq<File>, w: Wanted, f: File) {
    && f in files && Matches(c.info(f).version, w)
    && forall g :: g in files && Matches(c.info(g).version, w) ==> c.info(g).priority <= c.info(f).priority
  }

  ghost predicate OnePreference(c: Cache, files: seq<File>, w: Wanted) {
    forall f, g :: Top(c, files, w, f) && Top(c, files, w, g) ==> c.info(f).preference == c.info(g).preference
  }

  /** The file taken has the highest default preference of these exactly if they all have the same. */
  lemma HighestPreferenceIff(c: Cache, files: seq<File>, s: Setting, f: File)
    requires IsPick(c, files, s, Matched(f))
    ensures Top(c, files, s.wanted.value, f)
    ensures OnePreference(c, files, s.wanted.value) <==>
      forall g :: Top(c, files, s.wanted.value, g) ==> c.info(g).preference <= c.info(f).preference
  {
    var w := s.wanted.value;
    var k: nat :| FirstBest(files, k, PreferredOrder(c, w)) && files[k] == f;
    forall g | g in files && Matches(c.info(g).version, w)
      ensures c.info(g).priority <= c.info(f).priority
      ensures c.info(g).priority == c.info(f).priority ==> c.info(f).preference <= c.info(g).preference
    {
      var j :| 0 <= j < |files| && files[j] == g;
      assert !PreferredOrder(c, w)(files[j], f);
    }
    assert Top(c, files, w, f);
  }

  // ---- collating by name ----

  /** The providers of one recipe name. */
  function OfName(c: Cache, providers: seq<File>, pn: string): seq<File> {
    if providers == [] then [] else
      var last := providers[|providers| - 1];
      OfName(c, providers[..|providers| - 1], pn) + if c.info(last).pn == pn then [last] else []
  }

  lemma {:induction false} OfNameElem(c: Cache, providers: seq<File>, pn: string, f: File)
    ensures f in OfName(c, providers, pn) <==> f in providers && c.info(f).pn == pn
    decreases |providers|
  {
    if providers != [] {
      OfNameElem(c, providers[..|providers| - 1], pn, f);
      assert providers == providers[..|providers| - 1] + [providers[|providers| - 1]];
    }
  }

  type ByName = map<string, seq<File>>

  ghost predicate IsCollated(c: Cache, providers: seq<File>, byName: ByName) {
    && (forall pn :: pn in byName ==> byName[pn] == OfName(c, providers, pn) && byName[pn] != [])
    && forall pn :: pn !in byName ==> OfName(c, providers, pn) == []
  }

  lemma CollatedStep(c: Cache, providers: seq<File>, byName: ByName, p: File, files: seq<File>)
    requires IsCollated(c, providers, byName)
    requires files == if c.info(p).pn in byName then byName[c.info(p).pn] else []
    ensures IsCollated(c, providers + [p], byName[c.info(p).pn := files + [p]])
  {
    assert (providers + [p])[..|providers|] == providers;
  }

  method CollateByName(c: Cache, providers: seq<File>) returns (byName: ByName)
    ensures IsCollated(c, providers, byName)
  {
    hide IsCollated;
    byName := map[];
    assert IsCollated(c, providers[..0], byName) by { NothingCollated(c); }
    for i := 0 to |providers|
      invariant IsCollated(c, providers[..i], byName)
    {
      assert providers[..i + 1] == providers[..i] + [providers[i]];
      var p := providers[i];
      var files := if c.info(p).pn in byName then byName[c.info(p).pn] else [];
      CollatedStep(c, providers[..i], byName, p, files);
      byName := byName[c.info(p).pn := files + [p]];
    }
    assert providers[..|providers|] == providers;
  }

  lemma NothingCollated(c: Cache)
    ensures IsCollated(c, [], map[])
  {
  }

  // ---- the two passes over the names ----

  /** The matched files, in order. */
  function MatchedFiles(picks: seq<Pick>): seq<File> {
    if picks == [] then [] else
      MatchedFiles(picks[..|picks| - 1]) +
        if picks[|picks| - 1].Matched? then [picks[|picks| - 1].file] else []
  }

  function BestFiles(picks: seq<Pick>): seq<File> {
    if picks == [] then [] else
      BestFiles(picks[..|picks| - 1]) +
        if picks[|picks| - 1].Best? then [picks[|picks| - 1].file] else []
  }

  ghost predicate IsPreferred(c: Cache, files: seq<File>, s: Setting, preferred: Option<File>) {
    match preferred
    case Some(f) => IsPick(c, files, s, Matched(f))
    case None => NoneMatches(c, files, s)
  }

  /** `findPreferredProvider` after `sortPriorities`. */
  method FindPreferredProvider(c: Cache, files: seq<File>, s: Setting) returns (groups: Groups, preferred: Option<File>)
    ensures Grouped(c, files, groups) && IsPreferred(c, files, s, preferred)
  {
    groups := SortPriorities(c, files);
    ghost var pris :| AreGroups(c, files, groups, pris);
    preferred := None;
    if s.wanted.Some? {
      var w := s.wanted.value;
      ghost var a, b;
      preferred, a, b := FindPreferred(c, groups, w);
      if preferred.Some? {
        var k := FirstMatchIsBest(c, files, groups, pris, w, a, b);
      } else {
        NoMatchAtAll(c, files, groups, pris, w);
      }
    }
  }

  /** Two recipes of version 1, the second with the higher default preference: the first is preferred. */
  method LowerIsPreferred() returns (preferred: Option<File>)
    ensures preferred == Some("low.bb")
  {
    var version := Version("", "1", "r0");
    var c := Cache(f => Info("p", 5, if f == "low.bb" then 0 else 10, version), (a, b) => false);
    var s := Setting(false, Some(Wanted(None, "1", None)));
    var files := ["high.bb", "low.bb"];
    var groups;
    groups, preferred := FindPreferredProvider(c, files, s);
    assert "low.bb" == files[1] && Matches(c.info("low.bb").version, s.wanted.value);
    if preferred.Some? {
      ghost var k: nat :| FirstBest(files, k, PreferredOrder(c, s.wanted.value)) && files[k] == preferred.value;
      assert !PreferredOrder(c, s.wanted.value)(files[1], files[k]);
    }
  }

  method FindLatestProvider(c: Cache, files: seq<File>, s: Setting, groups: Groups) returns (latest: File)
    requires StrictWeak(c.less) && files != [] && Grouped(c, files, groups)
    requires NoneMatches(c, files, s) && !s.required
    ensures IsPick(c, files, s, Best(latest))
  {
    ghost var pris :| AreGroups(c, files, groups, pris);
    assert c.info(files[0]).priority in pris;
    var found, k := FindLatest(c, groups[0]);
    assert IsGroup(c, files, groups[0], pris[0]);
    var m := LatestIsBest(c, files, groups, pris, k);
    latest := found.value;
  }

  /** The names of the providers, sorted. */
  ghost predicate AreNames(c: Cache, providers: seq<File>, pns: seq<string>) {
    Sorted(pns) && forall pn :: pn in pns <==> OfName(c, providers, pn) != []
  }

  /** What the first pass keeps of one name; a required version is there. */
  ghost predicate EntryOk(c: Cache, files: seq<File>, s: Setting, preferred: Option<File>, groups: Groups) {
    && Grouped(c, files, groups) && IsPreferred(c, files, s, preferred)
    && (preferred.None? ==> !s.required)
  }

  /** The first pass has been over the first `|preferred|` names. */
  ghost predicate PassOk(c: Cache, providers: seq<File>, settings: string -> Setting, pns: seq<string>,
                         preferred: seq<Option<File>>, sorted: seq<Groups>) {
    && |preferred| == |sorted| <= |pns|
    && forall i :: 0 <= i < |preferred| ==>
      EntryOk(c, OfName(c, providers, pns[i]), settings(pns[i]), preferred[i], sorted[i])
  }

  function Found(preferred: seq<Option<File>>): seq<File> {
    if preferred == [] then [] else
      Found(preferred[..|preferred| - 1]) +
        match preferred[|preferred| - 1]
        case Some(f) => [f]
        case None => []
  }

  /** The first loop; it stops where a required version is missing. */
  method FirstPass(c: Cache, providers: seq<File>, settings: string -> Setting, byName: ByName, pns: seq<string>)
      returns (preferred: seq<Option<File>>, sorted: seq<Groups>, eligible: seq<File>)
    requires IsCollated(c, providers, byName) && forall pn :: pn in pns ==> pn in byName
    ensures PassOk(c, providers, settings, pns, preferred, sorted) && eligible == Found(preferred)
    ensures |preferred| <= |pns|
    ensures |preferred| < |pns| ==>
      var pn := pns[|preferred|]; IsPick(c, OfName(c, providers, pn), settings(pn), Unavailable)
  {
    hide IsPick, PassOk, OfName, Found, Grouped;
    preferred, sorted, eligible := [], [], [];
    NothingPassed(c, providers, settings, pns);
    for i := 0 to |pns|
      invariant PassOk(c, providers, settings, pns, preferred, sorted) && eligible == Found(preferred)
      invariant |preferred| == i
    {
      assert pns[i] in byName;
      var groups, file := FindPreferredProvider(c, byName[pns[i]], settings(pns[i]));
      if settings(pns[i]).required && file.None? {
        UnavailableIs(c, byName[pns[i]], settings(pns[i]));
        return;
      }
      FoundSnoc(preferred, file);
      PassSnoc(c, providers, settings, pns, preferred, sorted, file, groups);
      preferred, sorted := preferred + [file], sorted + [groups];
      if file.Some? { eligible := eligible + [file.value]; }
    }
  }

  lemma NothingPassed(c: Cache, providers: seq<File>, settings: string -> Setting, pns: seq<string>)
    ensures PassOk(c, providers, settings, pns, [], []) && Found([]) == []
  {
  }

  lemma PassSnoc(c: Cache, providers: seq<File>, settings: string -> Setting, pns: seq<string>,
                 preferred: seq<Option<File>>, sorted: seq<Groups>, file: Option<File>, groups: Groups)
    requires PassOk(c, providers, settings, pns, preferred, sorted) && |preferred| < |pns|
    requires var pn := pns[|preferred|]; EntryOk(c, OfName(c, providers, pn), settings(pn), file, groups)
    ensures PassOk(c, providers, settings, pns, preferred + [file], sorted + [groups])
  {
    hide EntryOk;
  }

  lemma UnavailableIs(c: Cache, files: seq<File>, s: Setting)
    requires s.required && NoneMatches(c, files, s)
    ensures IsPick(c, files, s, Unavailable)
  {
  }

  lemma FoundSnoc(preferred: seq<Option<File>>, file: Option<File>)
    ensures Found(preferred + [file]) == if file.Some? then Found(preferred) + [file.value] else Found(preferred)
  {
    assert (preferred + [file])[..|preferred|] == preferred;
  }

  /** Every name has its pick. */
  ghost predicate Picked(c: Cache, providers: seq<File>, settings: string -> Setting, pns: seq<string>,
      picks: seq<Pick>) {
    |picks| <= |pns| && forall i :: 0 <= i < |picks| ==>
      !picks[i].Unavailable? && IsPick(c, OfName(c, providers, pns[i]), settings(pns[i]), picks[i])
  }

  /** The second loop adds the latest version where nothing was preferred. */
  method SecondPass(c: Cache, providers: seq<File>, settings: string -> Setting, pns: seq<string>,
                    preferred: seq<Option<File>>, sorted: seq<Groups>)
      returns (picks: seq<Pick>, eligible: seq<File>)
    requires StrictWeak(c.less) && PassOk(c, providers, settings, pns, preferred, sorted) && |preferred| == |pns|
    requires forall pn :: pn in pns ==> OfName(c, providers, pn) != []
    ensures Picked(c, providers, settings, pns, picks) && |picks| == |pns|
    ensures eligible == MatchedFiles(picks) + BestFiles(picks)
  {
    hide IsPick, StrictWeak, PassOk, Picked, EntryOk, Found, MatchedFiles, BestFiles;
    picks, eligible := [], Found(preferred);
    NothingPicked(c, providers, settings, pns);
    for i := 0 to |pns|
      invariant |picks| == i && Picked(c, providers, settings, pns, picks)
      invariant MatchedFiles(picks) == Found(preferred[..i]) && eligible == Found(preferred) + BestFiles(picks)
    {
      assert preferred[..i + 1] == preferred[..i] + [preferred[i]];
      FoundSnoc(preferred[..i], preferred[i]);
      assert pns[i] in pns;
      EntryAt(c, providers, settings, pns, preferred, sorted, i);
      var pick := PickOne(c, OfName(c, providers, pns[i]), settings(pns[i]), preferred[i], sorted[i]);
      PicksSnoc(picks, pick);
      PickedSnoc(c, providers, settings, pns, picks, pick);
      picks := picks + [pick];
      if pick.Best? { eligible := eligible + [pick.file]; }
    }
    assert preferred[..|pns|] == preferred;
  }

  /** One turn of the second loop. */
  method PickOne(c: Cache, files: seq<File>, s: Setting, preferred: Option<File>, groups: Groups) returns (pick: Pick)
    requires StrictWeak(c.less) && EntryOk(c, files, s, preferred, groups) && files != []
    ensures IsPick(c, files, s, pick) && !pick.Unavailable?
    ensures pick == if preferred.Some? then Matched(preferred.value) else Best(pick.file)
  {
    match preferred {
      case Some(f) => pick := Matched(f);
      case None =>
        var latest := FindLatestProvider(c, files, s, groups);
        pick := Best(latest);
    }
  }

  lemma EntryAt(c: Cache, providers: seq<File>, settings: string -> Setting, pns: seq<string>,
                preferred: seq<Option<File>>, sorted: seq<Groups>, i: nat)
    requires PassOk(c, providers, settings, pns, preferred, sorted) && i < |preferred|
    ensures i < |sorted| && EntryOk(c, OfName(c, providers, pns[i]), settings(pns[i]), preferred[i], sorted[i])
  {
  }

  lemma NothingPicked(c: Cache, providers: seq<File>, settings: string -> Setting, pns: seq<string>)
    ensures Picked(c, providers, settings, pns, [])
    ensures MatchedFiles([]) == BestFiles([]) == Found([]) == []
  {
  }

  lemma PickedSnoc(c: Cache, providers: seq<File>, settings: string -> Setting, pns: seq<string>,
      picks: seq<Pick>, pick: Pick)
    requires Picked(c, providers, settings, pns, picks) && |picks| < |pns| && !pick.Unavailable?
    requires var pn := pns[|picks|]; IsPick(c, OfName(c, providers, pn), settings(pn), pick)
    ensures Picked(c, providers, settings, pns, picks + [pick])
  {
    hide IsPick;
  }

  lemma PicksSnoc(picks: seq<Pick>, pick: Pick)
    ensures MatchedFiles(picks + [pick]) == if pick.Matched? then MatchedFiles(picks) + [pick.file] else MatchedFiles(picks)
    ensures BestFiles(picks + [pick]) == if pick.Best? then BestFiles(picks) + [pick.file] else BestFiles(picks)
  {
    assert (picks + [pick])[..|picks|] == picks;
  }

  // ---- the order ----

  /** One file is taken out and put in front. */
  function InFront(eligible: seq<File>, f: File): seq<File> {
    [f] + RemoveFirst(eligible, f)
  }

  function IndexOf(pns: seq<string>, pn: string): (i: nat)
    requires pn in pns
    ensures i < |pns| && pns[i] == pn
  {
    if pns[0] == pn then 0 else 1 + IndexOf(pns[1..], pn)
  }

  /** Matched versions come first, then the best of the other names; the item's own name goes in front. */
  function Arranged(item: string, pns: seq<string>, picks: seq<Pick>): seq<File>
    requires |picks| == |pns| && forall i :: 0 <= i < |picks| ==> !picks[i].Unavailable?
  {
    var eligible := MatchedFiles(picks) + BestFiles(picks);
    if item in pns then InFront(eligible, picks[IndexOf(pns, item)].file) else eligible
  }

  /** The whole selection went through. */
  ghost predicate Selected(c: Cache, providers: seq<File>, item: string, settings: string -> Setting,
                           pns: seq<string>, picks: seq<Pick>, eligible: seq<File>) {
    && AreNames(c, providers, pns) && Picked(c, providers, settings, pns, picks) && |picks| == |pns|
    && eligible == Arranged(item, pns, picks)
  }

  /** A required version was missing: only what was preferred for the names before it is returned. */
  ghost predicate Cut(c: Cache, providers: seq<File>, settings: string -> Setting,
                      pns: seq<string>, preferred: seq<Option<File>>, sorted: seq<Groups>, eligible: seq<File>) {
    && AreNames(c, providers, pns) && PassOk(c, providers, settings, pns, preferred, sorted) && |preferred| < |pns|
    && IsPick(c, OfName(c, providers, pns[|preferred|]), settings(pns[|preferred|]), Unavailable)
    && eligible == Found(preferred)
  }

  ghost predicate IsSelection(c: Cache, providers: seq<File>, item: string, settings: string -> Setting,
      eligible: seq<File>) {
    || (exists pns, picks :: Selected(c, providers, item, settings, pns, picks, eligible))
    || exists pns, preferred, sorted :: Cut(c, providers, settings, pns, preferred, sorted, eligible)
  }

  lemma {:induction false} MatchedElem(picks: seq<Pick>, f: File)
    ensures f in MatchedFiles(picks) <==> Matched(f) in picks
    ensures f in BestFiles(picks) <==> Best(f) in picks
    decreases |picks|
  {
    if picks != [] {
      MatchedElem(picks[..|picks| - 1], f);
      assert picks == picks[..|picks| - 1] + [picks[|picks| - 1]];
    }
  }

  lemma NamesOf(c: Cache, providers: seq<File>, byName: ByName, pns: seq<string>)
    requires IsCollated(c, providers, byName) && Sorted(pns) && forall pn :: pn in pns <==> pn in byName
    ensures AreNames(c, providers, pns)
  {
  }

  lemma NameListed(c: Cache, providers: seq<File>, pns: seq<string>, f: File)
    requires AreNames(c, providers, pns) && f in providers
    ensures c.info(f).pn in pns
  {
    OfNameElem(c, providers, c.info(f).pn, f);
  }

  lemma PickInList(picks: seq<Pick>, i: nat)
    requires i < |picks| && !picks[i].Unavailable?
    ensures picks[i].file in MatchedFiles(picks) + BestFiles(picks)
  {
    MatchedElem(picks, picks[i].file);
    assert picks[i] in picks;
  }

  /** The loop over `providers` that prefers the recipe with the item's own name. */
  method BringForward(c: Cache, providers: seq<File>, item: string, pns: seq<string>, picks: seq<Pick>,
      eligible: seq<File>)
      returns (ordered: seq<File>)
    requires AreNames(c, providers, pns) && |picks| == |pns| && forall i :: 0 <= i < |picks| ==> !picks[i].Unavailable?
    requires eligible == MatchedFiles(picks) + BestFiles(picks)
    ensures ordered == Arranged(item, pns, picks)
  {
    hide AreNames, MatchedFiles, BestFiles;
    ordered := eligible;
    ghost var seen := false;
    for i := 0 to |providers|
      invariant seen <==> exists j :: 0 <= j < i && c.info(providers[j]).pn == item
      invariant seen ==> item in pns
      invariant ordered == if seen then Arranged(item, pns, picks) else eligible
    {
      if c.info(providers[i]).pn == item {
        NameListed(c, providers, pns, providers[i]);
        var fn := picks[IndexOf(pns, item)].file;
        PickInList(picks, IndexOf(pns, item));
        if fn in ordered {
          ordered := InFront(ordered, fn);
        }
        seen := true;
      }
    }
    if item in pns { ItemIsProvided(c, providers, item, pns); }
  }

  lemma ItemIsProvided(c: Cache, providers: seq<File>, item: string, pns: seq<string>)
    requires AreNames(c, providers, pns) && item in pns
    ensures exists j :: 0 <= j < |providers| && c.info(providers[j]).pn == item
  {
    var files := OfName(c, providers, item);
    OfNameElem(c, providers, item, files[0]);
  }

  /** What sorting makes of the list of providers. */
  ghost predicate IsListing(listed: seq<File>, providers: seq<File>) {
    Ordered(listed) && multiset(listed) == multiset(providers)
  }

  /** A selection from the list that `providers.sort()` makes of `providers`. */
  ghost predicate IsSelected(c: Cache, providers: seq<File>, item: string, settings: string -> Setting,
      eligible: seq<File>) {
    exists listed :: IsListing(listed, providers) && IsSelection(c, listed, item, settings, eligible)
  }

  /** `_filterProviders`. */
  method SelectProviders(c: Cache, providers: seq<File>, item: string, settings: string -> Setting)
      returns (eligible: seq<File>)
    requires StrictWeak(c.less)
    ensures IsSelected(c, providers, item, settings, eligible)
  {
    hide IsPick, PassOk, Picked, StrictWeak, MatchedFiles, BestFiles, Ordered, IsCollated;
    var files := SortList(providers);
    var byName := CollateByName(c, files);
    var pns := SortKeys(byName.Keys);
    NamesOf(c, files, byName, pns);
    var preferred, sorted;
    preferred, sorted, eligible := FirstPass(c, files, settings, byName, pns);
    if |preferred| < |pns| {
      assert Cut(c, files, settings, pns, preferred, sorted, eligible);
      assert IsSelection(c, files, item, settings, eligible);
      return;
    }
    var picks;
    picks, eligible := SecondPass(c, files, settings, pns, preferred, sorted);
    PickedIsAvailable(c, files, settings, pns, picks);
    if eligible != [] {
      eligible := BringForward(c, files, item, pns, picks, eligible);
    } else {
      NothingEligible(pns, picks);
    }
    assert Selected(c, files, item, settings, pns, picks, eligible);
    assert IsSelection(c, files, item, settings, eligible);
  }

  lemma PickedIsAvailable(c: Cache, providers: seq<File>, settings: string -> Setting, pns: seq<string>,
      picks: seq<Pick>)
    requires Picked(c, providers, settings, pns, picks)
    ensures forall i :: 0 <= i < |picks| ==> !picks[i].Unavailable?
  {
  }

  lemma NothingEligible(pns: seq<string>, picks: seq<Pick>)
    requires |picks| == |pns| && forall i :: 0 <= i < |picks| ==> !picks[i].Unavailable?
    requires MatchedFiles(picks) + BestFiles(picks) == []
    ensures pns == []
  {
    if pns != [] { PickInList(picks, 0); }
  }

  // ---- what a selection is ----

  lemma WinnerIsListed(c: Cache, files: seq<File>, s: Setting, pick: Pick)
    requires IsPick(c, files, s, pick) && !pick.Unavailable?
    ensures pick.file in files
  {
    if pick.Matched? {
      MatchedIsListed(c, files, s, pick.file);
    } else {
      var k: nat :| FirstBest(files, k, BestOrder(c)) && files[k] == pick.file;
    }
  }

  /** Each pick is a provider of its own name. */
  lemma PickHasName(c: Cache, providers: seq<File>, settings: string -> Setting, pns: seq<string>,
      picks: seq<Pick>, i: nat)
    requires Picked(c, providers, settings, pns, picks) && i < |picks|
    ensures picks[i].file in providers && c.info(picks[i].file).pn == pns[i]
  {
    WinnerIsListed(c, OfName(c, providers, pns[i]), settings(pns[i]), picks[i]);
    OfNameElem(c, providers, pns[i], picks[i].file);
  }

  ghost predicate Distinct(picks: seq<Pick>) {
    && (forall i :: 0 <= i < |picks| ==> !picks[i].Unavailable?)
    && forall i, j :: 0 <= i < j < |picks| ==> picks[i].file != picks[j].file
  }

  lemma {:induction false} DistinctNoDup(picks: seq<Pick>)
    requires Distinct(picks)
    ensures NoDup(MatchedFiles(picks) + BestFiles(picks))
    ensures |MatchedFiles(picks) + BestFiles(picks)| == |picks|
    decreases |picks|
  {
    if picks != [] {
      var init, last := picks[..|picks| - 1], picks[|picks| - 1];
      DistinctNoDup(init);
      NewFile(init, last, picks);
      PicksSnoc(init, last);
      assert init + [last] == picks;
      hide MatchedFiles, BestFiles, NoDup, Distinct;
      var m, b := MatchedFiles(init), BestFiles(init);
      NoDupInsert(m, b, last.file);
    }
  }

  lemma NewFile(init: seq<Pick>, last: Pick, picks: seq<Pick>)
    requires picks == init + [last] && Distinct(picks) && !last.Unavailable?
    ensures last.file !in MatchedFiles(init) && last.file !in BestFiles(init)
  {
    MatchedElem(init, last.file);
    hide MatchedFiles, BestFiles;
    forall pick | pick in init ensures pick != Matched(last.file) && pick != Best(last.file) {
      var i :| 0 <= i < |init| && init[i] == pick;
      assert init[i] == picks[i] && last == picks[|init|];
    }
  }

  lemma NoDupInsert(m: seq<File>, b: seq<File>, f: File)
    requires NoDup(m + b) && f !in m && f !in b
    ensures NoDup(m + [f] + b) && NoDup(m + (b + [f]))
  {
    var s, t, u := m + b, m + [f] + b, m + (b + [f]);
    forall i, j | 0 <= i < j < |t| ensures t[i] != t[j] {
      assert i < |m| ==> s[i] == t[i];
      assert i > |m| ==> s[i - 1] == t[i];
      assert j < |m| ==> s[j] == t[j];
      assert j > |m| ==> s[j - 1] == t[j];
    }
    assert f !in s;
    forall i, j | 0 <= i < j < |u| ensures u[i] != u[j] {
      assert s[i] == u[i] && s[i] in s;
      assert j < |s| ==> s[j] == u[j];
    }
  }

  lemma {:induction false} InFrontKeeps(eligible: seq<File>, f: File)
    requires f in eligible
    ensures multiset(InFront(eligible, f)) == multiset(eligible)
  {
    if eligible[0] == f {
      assert eligible == [f] + eligible[1..];
    } else {
      assert eligible == [eligible[0]] + eligible[1..];
      InFrontKeeps(eligible[1..], f);
    }
  }

  lemma SameBagNoDup(s: seq<File>, t: seq<File>)
    requires multiset(s) == multiset(t) && NoDup(s)
    ensures NoDup(t) && |t| == |s|
  {
    assert |multiset(s)| == |s| && |multiset(t)| == |t|;
    forall i, j | 0 <= i < j < |t| ensures t[i] != t[j] {
      if t[i] == t[j] {
        TwiceCounts(t, i, j);
        OnceCounts(s, t[i]);
      }
    }
  }

  lemma TwiceCounts(t: seq<File>, i: nat, j: nat)
    requires i < j < |t| && t[i] == t[j]
    ensures multiset(t)[t[i]] >= 2
  {
    assert t == t[..i] + [t[i]] + t[i + 1..j] + [t[j]] + t[j + 1..];
  }

  lemma {:induction false} OnceCounts(s: seq<File>, f: File)
    requires NoDup(s)
    ensures multiset(s)[f] <= 1
  {
    if s != [] {
      assert s == [s[0]] + s[1..];
      OnceCounts(s[1..], f);
      if s[0] == f { assert f !in s[1..]; }
    }
  }

  /** Exactly one file for each name, none twice, and the file of the item's own name in front. */
  lemma OneFilePerName(c: Cache, providers: seq<File>, item: string, settings: string -> Setting,
                       pns: seq<string>, picks: seq<Pick>, eligible: seq<File>)
    requires Selected(c, providers, item, settings, pns, picks, eligible)
    ensures NoDup(eligible) && |eligible| == |pns|
    ensures forall i :: 0 <= i < |pns| ==> picks[i].file in eligible && c.info(picks[i].file).pn == pns[i]
    ensures forall f :: f in eligible ==> f in providers && exists i :: 0 <= i < |pns| && f == picks[i].file
    ensures item in pns ==> eligible != [] && c.info(eligible[0]).pn == item
  {
    hide IsPick, OfName;
    PicksAreDistinct(c, providers, settings, pns, picks);
    DistinctNoDup(picks);
    var all := MatchedFiles(picks) + BestFiles(picks);
    if item in pns {
      var k := IndexOf(pns, item);
      PickInList(picks, k);
      InFrontKeeps(all, picks[k].file);
      SameBagNoDup(all, eligible);
      PickHasName(c, providers, settings, pns, picks, k);
    }
    forall f ensures f in eligible <==> f in all { BagElem(eligible, all, f); }
    forall i | 0 <= i < |pns| ensures picks[i].file in eligible && c.info(picks[i].file).pn == pns[i] {
      PickInList(picks, i);
      PickHasName(c, providers, settings, pns, picks, i);
    }
    forall f | f in eligible ensures f in providers && exists i :: 0 <= i < |pns| && f == picks[i].file {
      MatchedElem(picks, f);
      var i :| 0 <= i < |picks| && (picks[i] == Matched(f) || picks[i] == Best(f));
      PickHasName(c, providers, settings, pns, picks, i);
    }
  }

  lemma BagElem(s: seq<File>, t: seq<File>, f: File)
    requires multiset(s) == multiset(t)
    ensures f in s <==> f in t
  {
    assert f in s <==> f in multiset(s);
    assert f in t <==> f in multiset(t);
  }

  lemma PicksAreDistinct(c: Cache, providers: seq<File>, settings: string -> Setting, pns: seq<string>,
      picks: seq<Pick>)
    requires AreNames(c, providers, pns) && Picked(c, providers, settings, pns, picks) && |picks| == |pns|
    ensures Distinct(picks)
  {
    hide IsPick;
    forall i, j | 0 <= i < j < |picks| ensures picks[i].file != picks[j].file {
      PickHasName(c, providers, settings, pns, picks, i);
      PickHasName(c, providers, settings, pns, picks, j);
      LessIsTotal(pns[i], pns[j]);
    }
  }

  /** With no version settings, each file is the best of its name, and the first listed of its equals. */
  lemma WithoutSettings(c: Cache, providers: seq<File>, item: string, settings: string -> Setting,
                        pns: seq<string>, picks: seq<Pick>, eligible: seq<File>, f: File, g: File)
    requires Selected(c, providers, item, settings, pns, picks, eligible)
    requires forall pn :: settings(pn) == Setting(false, None)
    requires f in eligible && g in providers && c.info(g).pn == c.info(f).pn
    ensures !BestOrder(c)(g, f)
    ensures Wins(OfName(c, providers, c.info(f).pn), f, BestOrder(c))
  {
    hide IsPick, OfName;
    OneFilePerName(c, providers, item, settings, pns, picks, eligible);
    var i :| 0 <= i < |pns| && f == picks[i].file;
    PickHasName(c, providers, settings, pns, picks, i);
    OfNameElem(c, providers, pns[i], g);
    OnlyBest(c, OfName(c, providers, pns[i]), picks[i], g);
  }

  lemma OnlyBest(c: Cache, files: seq<File>, pick: Pick, g: File)
    requires IsPick(c, files, Setting(false, None), pick) && !pick.Unavailable? && g in files
    ensures Wins(files, pick.file, BestOrder(c)) && !BestOrder(c)(g, pick.file)
  {
    var k: nat :| FirstBest(files, k, BestOrder(c)) && files[k] == pick.file;
    var j :| 0 <= j < |files| && files[j] == g;
  }

  // ---- what is returned is determined ----

  lemma SelectedIsUnique(c: Cache, item: string, settings: string -> Setting, listed: seq<File>,
      pns: seq<string>, pns': seq<string>, picks: seq<Pick>, picks': seq<Pick>,
      eligible: seq<File>, eligible': seq<File>)
    ensures Selected(c, listed, item, settings, pns, picks, eligible) ==>
      Selected(c, listed, item, settings, pns', picks', eligible') ==> eligible == eligible'
  {
    if Selected(c, listed, item, settings, pns, picks, eligible)
      && Selected(c, listed, item, settings, pns', picks', eligible')
    {
      hide IsPick;
      SortedIsUnique(pns, pns');
      forall i | 0 <= i < |pns| ensures picks[i] == picks'[i] {
        PickIsUnique(c, OfName(c, listed, pns[i]), settings(pns[i]), picks[i], picks'[i]);
      }
      assert picks == picks';
    }
  }

  lemma PreferredIsUnique(c: Cache, files: seq<File>, s: Setting, p: Option<File>, q: Option<File>)
    requires IsPreferred(c, files, s, p) && IsPreferred(c, files, s, q)
    ensures p == q
  {
    if p.Some? { MatchedIsListed(c, files, s, p.value); }
    if q.Some? { MatchedIsListed(c, files, s, q.value); }
    if p.Some? && q.Some? { PickIsUnique(c, files, s, Matched(p.value), Matched(q.value)); }
  }

  /** A name that the first pass gets past has its required version. */
  lemma EntryIsAvailable(c: Cache, files: seq<File>, s: Setting, preferred: Option<File>, groups: Groups)
    requires EntryOk(c, files, s, preferred, groups)
    ensures !IsPick(c, files, s, Unavailable)
  {
    if preferred.Some? { MatchedIsListed(c, files, s, preferred.value); }
  }

  lemma CutsStopTogether(c: Cache, settings: string -> Setting, listed: seq<File>, pns: seq<string>,
      preferred: seq<Option<File>>, sorted: seq<Groups>, n: nat)
    requires PassOk(c, listed, settings, pns, preferred, sorted) && n < |pns|
    requires IsPick(c, OfName(c, listed, pns[n]), settings(pns[n]), Unavailable)
    ensures |preferred| <= n
  {
    hide IsPick, EntryOk;
    if n < |preferred| {
      EntryIsAvailable(c, OfName(c, listed, pns[n]), settings(pns[n]), preferred[n], sorted[n]);
    }
  }

  lemma CutIsUnique(c: Cache, settings: string -> Setting, listed: seq<File>, pns: seq<string>, pns': seq<string>,
      preferred: seq<Option<File>>, preferred': seq<Option<File>>, sorted: seq<Groups>, sorted': seq<Groups>,
      eligible: seq<File>, eligible': seq<File>)
    ensures Cut(c, listed, settings, pns, preferred, sorted, eligible) ==>
      Cut(c, listed, settings, pns', preferred', sorted', eligible') ==> eligible == eligible'
  {
    if Cut(c, listed, settings, pns, preferred, sorted, eligible)
      && Cut(c, listed, settings, pns', preferred', sorted', eligible')
    {
      hide IsPick, IsPreferred;
      SortedIsUnique(pns, pns');
      CutsStopTogether(c, settings, listed, pns, preferred, sorted, |preferred'|);
      CutsStopTogether(c, settings, listed, pns, preferred', sorted', |preferred|);
      forall i | 0 <= i < |preferred| ensures preferred[i] == preferred'[i] {
        PreferredIsUnique(c, OfName(c, listed, pns[i]), settings(pns[i]), preferred[i], preferred'[i]);
      }
      assert preferred == preferred';
    }
  }

  lemma CutIsNotSelected(c: Cache, item: string, settings: string -> Setting, listed: seq<File>, pns: seq<string>,
      pns': seq<string>, picks: seq<Pick>, preferred: seq<Option<File>>, sorted: seq<Groups>,
      eligible: seq<File>, eligible': seq<File>)
    ensures Selected(c, listed, item, settings, pns, picks, eligible) ==>
      !Cut(c, listed, settings, pns', preferred, sorted, eligible')
  {
    if Selected(c, listed, item, settings, pns, picks, eligible)
      && Cut(c, listed, settings, pns', preferred, sorted, eligible')
    {
      hide IsPick;
      SortedIsUnique(pns, pns');
      var i := |preferred|;
      PickIsUnique(c, OfName(c, listed, pns[i]), settings(pns[i]), picks[i], Unavailable);
    }
  }

  lemma IsSelectionIsUnique(c: Cache, item: string, settings: string -> Setting, listed: seq<File>,
      eligible: seq<File>, eligible': seq<File>)
    ensures IsSelection(c, listed, item, settings, eligible) && IsSelection(c, listed, item, settings, eligible') ==>
      eligible == eligible'
  {
    hide Selected, Cut;
    forall pns, picks, pns', picks'
      ensures Selected(c, listed, item, settings, pns, picks, eligible) ==>
        Selected(c, listed, item, settings, pns', picks', eligible') ==> eligible == eligible'
    {
      SelectedIsUnique(c, item, settings, listed, pns, pns', picks, picks', eligible, eligible');
    }
    forall pns, preferred, sorted, pns', preferred', sorted'
      ensures Cut(c, listed, settings, pns, preferred, sorted, eligible) ==>
        Cut(c, listed, settings, pns', preferred', sorted', eligible') ==> eligible == eligible'
    {
      CutIsUnique(c, settings, listed, pns, pns', preferred, preferred', sorted, sorted', eligible, eligible');
    }
    forall pns, picks, pns', preferred, sorted
      ensures Selected(c, listed, item, settings, pns, picks, eligible) ==>
        !Cut(c, listed, settings, pns', preferred, sorted, eligible')
      ensures Selected(c, listed, item, settings, pns, picks, eligible') ==>
        !Cut(c, listed, settings, pns', preferred, sorted, eligible)
    {
      CutIsNotSelected(c, item, settings, listed, pns, pns', picks, preferred, sorted, eligible, eligible');
      CutIsNotSelected(c, item, settings, listed, pns, pns', picks, preferred, sorted, eligible', eligible);
    }
  }

  /**
   `pkg_pn` is filled from a sorted list: what `_filterProviders` returns, with or without a required
   version missing, does not depend on the order in which the providers come.
   */
  lemma SelectionIsUnique(c: Cache, item: string, settings: string -> Setting, providers: seq<File>,
      providers': seq<File>, eligible: seq<File>, eligible': seq<File>)
    requires multiset(providers) == multiset(providers')
    ensures IsSelected(c, providers, item, settings, eligible) ==>
      IsSelected(c, providers', item, settings, eligible') ==> eligible == eligible'
  {
    hide IsSelection, Ordered;
    forall listed, listed' | IsListing(listed, providers) && IsListing(listed', providers')
      ensures IsSelection(c, listed, item, settings, eligible) ==>
        IsSelection(c, listed', item, settings, eligible') ==> eligible == eligible'
    {
      OrderedIsUnique(listed, listed');
      IsSelectionIsUnique(c, item, settings, listed, eligible, eligible');
    }
  }

  /**
   `filterProviders`: `preferred` is `dataCache.preferred`, and `prefervar` PREFERRED_PROVIDER of the item.
   It only permutes the selection, and says whether it found the preferred name in it.
   */
  method FilterProviders(c: Cache, providers: seq<File>, item: string, settings: string -> Setting,
                         preferred: map<string, string>, prefervar: Option<string>)
      returns (eligible: seq<File>, foundUnique: bool, preferred': map<string, string>, ghost selection: seq<File>)
    requires StrictWeak(c.less)
    ensures IsSelected(c, providers, item, settings, selection)
    ensures multiset(eligible) == multiset(selection)
    ensures preferred' == if prefervar.Some? && prefervar.value != "" then preferred[item := prefervar.value] else preferred
    ensures foundUnique <==> item in preferred' && exists f :: f in selection && c.info(f).pn == preferred'[item]
    ensures foundUnique ==>
      exists f :: eligible == InFront(selection, f) && f in selection && c.info(f).pn == preferred'[item]
    ensures !foundUnique ==> eligible == selection
  {
    hide IsSelected, StrictWeak;
    eligible := SelectProviders(c, providers, item, settings);
    selection := eligible;
    preferred' := preferred;
    if prefervar.Some? && prefervar.value != "" { preferred' := preferred'[item := prefervar.value]; }
    foundUnique := false;
    if item in preferred' {
      for i := 0 to |eligible|
        invariant forall j :: 0 <= j < i ==> c.info(eligible[j]).pn != preferred'[item]
      {
        var p := eligible[i];
        if preferred'[item] == c.info(p).pn {
          InFrontKeeps(eligible, p);
          eligible := InFront(eligible, p);
          foundUnique := true;
          return;
        }
      }
    }
  }
}

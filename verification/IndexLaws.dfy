/** What indexing and unindexing a name do to the override index of bitbake/lib/bb/data_smart.py, entry by entry. */
module IndexLaws {
  import opened Colons
  import opened Lists
  import opened PlainStore
  import opened StoreLaws

  /** At its beginning and after each colon, the text has a lower-case letter or a digit. */
  ghost predicate AllParts(o: string) {
    Begins(o, 0) && forall i :: 0 <= i < |o| && o[i] == ':' ==> Begins(o, i + 1)
  }

  predicate Begins(o: string, i: nat) { i < |o| && ('0' <= o[i] <= '9' || 'a' <= o[i] <= 'z') }

  /** The name is to be found under `base` with this override. */
  ghost predicate EntryOf(name: string, base: string, o: string) {
    if ':' in name then name == base + ":" + o && AllParts(o) && (base != "" || ':' !in o)
    else AllParts(name) && name == base + [name[|name| - 1]] && o == name
  }

  lemma OverrideLikeIff(name: string, i: nat)
    ensures OverrideLike(name, i) <==> Begins(name, i)
  {
  }

  // ---- where a name is cut ----

  lemma {:induction false} LastColonBefore(name: string, n: nat)
    requires n <= |name|
    ensures var r := RFind(name, n);
      && (r >= 0 ==> name[r] == ':') && forall i :: r < i < n && 0 <= i ==> name[i] != ':'
  {
    if n > 0 && name[n - 1] != ':' { LastColonBefore(name, n - 1); }
  }

  /** From `r` on, every colon before `n` has a letter or digit behind it. */
  ghost predicate Good(name: string, r: nat, n: nat)
    requires n <= |name|
  {
    forall i :: r <= i < n && name[i] == ':' ==> OverrideLike(name, i + 1)
  }

  lemma {:induction false} CutsBelowIff(name: string, n: nat, r: int)
    requires n <= |name|
    ensures r in CutsBelow(name, n) <==> 0 < r < n && name[r] == ':' && Good(name, r, n)
  {
    hide PlainStore.OverrideLike;
    LastColonBefore(name, n);
    var last := RFind(name, n);
    if last > 0 && OverrideLike(name, last + 1) {
      CutsBelowIff(name, last, r);
      assert r in CutsBelow(name, n) <==> r == last || r in CutsBelow(name, last);
    }
  }

  /** A name is cut at the colons behind which all parts begin as they should; at its first character only once. */
  lemma CutIff(name: string, r: nat)
    ensures r in Cuts(name) <==>
      r < |name| && name[r] == ':' && Good(name, r, |name|) && (r > 0 || ':' !in name[1..])
  {
    hide PlainStore.OverrideLike, PlainStore.RFind, PlainStore.CutsBelow, Good;
    LastColonBefore(name, |name|);
    var last := RFind(name, |name|);
    if last >= 0 { LastCut(name, last, r); }
  }

  lemma LastCut(name: string, last: nat, r: nat)
    requires last < |name| && name[last] == ':' && last == RFind(name, |name|)
    requires forall i :: last < i < |name| ==> name[i] != ':'
    ensures var cuts := if OverrideLike(name, last + 1) then [last] + CutsBelow(name, last) else [];
      r in cuts <==> r < |name| && name[r] == ':' && Good(name, r, |name|) && (r > 0 || ':' !in name[1..])
  {
    hide PlainStore.OverrideLike, PlainStore.RFind, PlainStore.CutsBelow;
    CutsBelowIff(name, last, r);
    if r < last {
      assert Good(name, r, |name|) <==> Good(name, r, last) && OverrideLike(name, last + 1);
      if r == 0 { assert name[1..][last - 1] == ':'; }
    } else if r == last {
      assert Good(name, r, |name|) <==> OverrideLike(name, last + 1);
      if r == 0 { assert forall i :: 0 <= i < |name[1..]| ==> name[1..][i] == name[i + 1] != ':'; }
    }
  }

  lemma GoodIsAllParts(name: string, r: nat)
    requires r < |name| && name[r] == ':'
    ensures Good(name, r, |name|) <==> AllParts(name[r + 1..])
  {
    var o := name[r + 1..];
    forall i: nat ensures OverrideLike(name, i) <==> Begins(name, i) { OverrideLikeIff(name, i); }
    forall i: nat ensures Begins(o, i) <==> Begins(name, r + 1 + i) {}
    hide PlainStore.OverrideLike, Begins;
    if Good(name, r, |name|) {
      assert OverrideLike(name, r + 1) && Begins(o, 0);
      forall i | 0 <= i < |o| && o[i] == ':' ensures Begins(o, i + 1) {
        assert name[r + 1 + i] == ':' && OverrideLike(name, r + 1 + i + 1);
      }
    }
    if AllParts(o) {
      forall i | r <= i < |name| && name[i] == ':' ensures OverrideLike(name, i + 1) {
        if i == r {
          assert Begins(o, 0);
        } else {
          assert o[i - r - 1] == ':' && Begins(o, i - r - 1 + 1);
        }
      }
    }
  }

  lemma NoColonCut(name: string)
    requires ':' !in name
    ensures Cuts(name) == if AllParts(name) then [-1] else []
  {
    LastColonBefore(name, |name|);
    assert RFind(name, |name|) == -1;
    OverrideLikeIff(name, 0);
    hide PlainStore.OverrideLike, Begins;
    assert AllParts(name) <==> Begins(name, 0) by { assert forall i :: 0 <= i < |name| ==> name[i] in name; }
  }

  lemma ColonEntry(name: string, r: nat)
    requires r < |name| && r in Cuts(name)
    ensures name[r] == ':' && EntryOf(name, name[..r], name[r + 1..])
  {
    CutIff(name, r);
    GoodIsAllParts(name, r);
    hide AllParts, Good, PlainStore.Cuts;
    var base, o := name[..r], name[r + 1..];
    assert name == base + ":" + o;
    if base == "" { assert name[1..] == o; }
  }

  lemma CutNotNegative(name: string)
    requires ':' in name
    ensures -1 !in Cuts(name)
  {
    LastColonBefore(name, |name|);
    var last := RFind(name, |name|);
    if last >= 0 { CutsBelowIff(name, last, -1); }
  }

  /** The cuts are the entries. */
  lemma CutsAreEntries(name: string, r: int, base: string, o: string)
    requires -1 <= r < |name| && base == Base(name, r) && o == Override(name, r) && r in Cuts(name)
    ensures EntryOf(name, base, o)
  {
    if r >= 0 {
      ColonEntry(name, r);
    } else {
      if ':' in name { CutNotNegative(name); }
      NoColonCut(name);
      assert name[0..] == name && name != "" && name == name[..|name| - 1] + [name[|name| - 1]];
    }
  }

  lemma EntryIsCut(name: string, base: string, o: string) returns (r: int)
    requires EntryOf(name, base, o)
    ensures -1 <= r < |name| && r in Cuts(name) && base == Base(name, r) && o == Override(name, r)
  {
    if ':' in name {
      r := |base|;
      assert name[r] == ':' && name[..r] == base && name[r + 1..] == o;
      GoodIsAllParts(name, r);
      if base == "" { assert name[1..] == o; }
      CutIff(name, r);
    } else {
      r := -1;
      NoColonCut(name);
      assert name != "" && name[0..] == name;
    }
  }

  // ---- the entries of the index ----

  ghost predicate Has(index: map<string, Overrides>, k: string, e: (string, string)) {
    k in index && e in index[k]
  }

  lemma AddsOne(index: map<string, Overrides>, name: string, r: int, k: string, e: (string, string))
    requires -1 <= r < |name|
    ensures Has(IndexAdd(index, name, r), k, e) <==>
      Has(index, k, e) || (k == Base(name, r) && e == (name, Override(name, r)))
    ensures k in index ==> k in IndexAdd(index, name, r) && index[k] <= IndexAdd(index, name, r)[k]
  {
    hide PlainStore.Base, PlainStore.Override;
  }

  /** One of the first `i` cuts makes this entry. */
  ghost predicate AmongCuts(name: string, cuts: seq<int>, i: nat, k: string, e: (string, string))
    requires AreCuts(name, cuts) && i <= |cuts|
  {
    exists m :: 0 <= m < i && k == Base(name, cuts[m]) && e == (name, Override(name, cuts[m]))
  }

  lemma OneCutMore(name: string, cuts: seq<int>, i: nat, k: string, e: (string, string))
    requires AreCuts(name, cuts) && i < |cuts|
    ensures AmongCuts(name, cuts, i + 1, k, e) <==>
      AmongCuts(name, cuts, i, k, e) || (k == Base(name, cuts[i]) && e == (name, Override(name, cuts[i])))
  {
    hide PlainStore.Base, PlainStore.Override;
  }

  lemma {:induction false} AddsAll(index: map<string, Overrides>, name: string, cuts: seq<int>, i: nat, k: string,
      e: (string, string))
    requires AreCuts(name, cuts) && i <= |cuts|
    ensures Has(IndexAddAll(index, name, cuts, i), k, e) <==> Has(index, k, e) || AmongCuts(name, cuts, i, k, e)
    ensures k in index ==>
      k in IndexAddAll(index, name, cuts, i) && index[k] <= IndexAddAll(index, name, cuts, i)[k]
    decreases i
  {
    hide PlainStore.IndexAdd, PlainStore.Base, PlainStore.Override;
    if i > 0 {
      AddsAll(index, name, cuts, i - 1, k, e);
      AddsOne(IndexAddAll(index, name, cuts, i - 1), name, cuts[i - 1], k, e);
      OneCutMore(name, cuts, i - 1, k, e);
    }
  }

  lemma AmongIsEntry(name: string, k: string, e: (string, string))
    ensures AreCuts(name, Cuts(name))
    ensures AmongCuts(name, Cuts(name), |Cuts(name)|, k, e) <==> e.0 == name && EntryOf(name, k, e.1)
  {
    CutsAreCuts(name);
    var cuts := Cuts(name);
    hide PlainStore.Cuts, PlainStore.Base, PlainStore.Override, EntryOf;
    if m :| 0 <= m < |cuts| && k == Base(name, cuts[m]) && e == (name, Override(name, cuts[m])) {
      CutsAreEntries(name, cuts[m], k, e.1);
    }
    if e.0 == name && EntryOf(name, k, e.1) {
      var r := EntryIsCut(name, k, e.1);
      var m :| 0 <= m < |cuts| && cuts[m] == r;
    }
  }

  /**
   Indexing a name adds exactly the entries that say how it can be taken apart, behind those that are there:
   one for every colon behind which all parts begin with a lower-case letter or a digit.
   */
  lemma IndexedIff(index: map<string, Overrides>, name: string, k: string, e: (string, string))
    ensures Has(Indexed(index, name), k, e) <==> Has(index, k, e) || (e.0 == name && EntryOf(name, k, e.1))
    ensures k in index ==> k in Indexed(index, name) && index[k] <= Indexed(index, name)[k]
  {
    AmongIsEntry(name, k, e);
    hide PlainStore.Cuts, AmongCuts, EntryOf, Has, PlainStore.IndexAddAll;
    AddsAll(index, name, Cuts(name), |Cuts(name)|, k, e);
  }

  // ---- and unindexing takes them out ----

  ghost predicate NoDups(index: map<string, Overrides>) {
    forall k :: k in index ==> NoDup(index[k])
  }

  lemma RemovesOne(index: map<string, Overrides>, name: string, r: int, k: string, e: (string, string))
    requires -1 <= r < |name| && NoDups(index)
    ensures NoDups(IndexRemove(index, name, r)) && IndexRemove(index, name, r).Keys == index.Keys
    ensures Has(IndexRemove(index, name, r), k, e) <==>
      Has(index, k, e) && !(k == Base(name, r) && e == (name, Override(name, r)))
  {
    var base, gone := Base(name, r), (name, Override(name, r));
    hide PlainStore.Base, PlainStore.Override;
    if base in index {
      RemoveFirstIsWithout(index[base], gone);
      WithoutNoDup(index[base], {gone});
      WithoutElem(index[base], {gone}, e);
    }
  }

  lemma {:induction false} RemovesAll(index: map<string, Overrides>, name: string, cuts: seq<int>, i: nat, k: string,
      e: (string, string))
    requires AreCuts(name, cuts) && i <= |cuts| && NoDups(index)
    ensures NoDups(IndexRemoveAll(index, name, cuts, i)) && IndexRemoveAll(index, name, cuts, i).Keys == index.Keys
    ensures Has(IndexRemoveAll(index, name, cuts, i), k, e) <==> Has(index, k, e) && !AmongCuts(name, cuts, i, k, e)
    decreases i
  {
    hide PlainStore.IndexRemove, PlainStore.Base, PlainStore.Override, NoDups;
    if i > 0 {
      RemovesAll(index, name, cuts, i - 1, k, e);
      RemovesOne(IndexRemoveAll(index, name, cuts, i - 1), name, cuts[i - 1], k, e);
      OneCutMore(name, cuts, i - 1, k, e);
    }
  }

  /** Unindexing a name takes out exactly the entries that indexing it adds. */
  lemma UnindexedIff(index: map<string, Overrides>, name: string, k: string, e: (string, string))
    requires NoDups(index)
    ensures NoDups(Unindexed(index, name)) && Unindexed(index, name).Keys == index.Keys
    ensures Has(Unindexed(index, name), k, e) <==> Has(index, k, e) && !(e.0 == name && EntryOf(name, k, e.1))
  {
    AmongIsEntry(name, k, e);
    hide PlainStore.Cuts, AmongCuts, EntryOf, Has, NoDups, PlainStore.IndexRemoveAll;
    RemovesAll(index, name, Cuts(name), |Cuts(name)|, k, e);
  }

  // ---- no update lists an entry twice ----

  lemma {:induction false} AddingKeepsNoDups(index: map<string, Overrides>, name: string, cuts: seq<int>, i: nat)
    requires AreCuts(name, cuts) && i <= |cuts| && NoDups(index)
    ensures NoDups(IndexAddAll(index, name, cuts, i))
  {
    hide PlainStore.Base, PlainStore.Override;
    if i > 0 { AddingKeepsNoDups(index, name, cuts, i - 1); }
  }

  lemma {:induction false} DelVarsKeepNoDups(s: Store, vs: seq<string>, i: nat)
    requires i <= |vs| && NoDups(s.index)
    ensures NoDups(DelVars(s, vs, i).index)
  {
    if i > 0 {
      DelVarsKeepNoDups(s, vs, i - 1);
      DelVarKeepsNoDups(DelVars(s, vs, i - 1), vs[i - 1]);
    }
  }

  lemma DelVarKeepsNoDups(s: Store, v: string)
    requires NoDups(s.index)
    ensures NoDups(DelVar(s, v).index)
  {
    UnindexedIff(s.index - {v}, v, "", ("", ""));
  }

  lemma IndexingKeepsNoDups(index: map<string, Overrides>, name: string)
    requires NoDups(index)
    ensures NoDups(Indexed(index, name))
  {
    CutsAreCuts(name);
    AddingKeepsNoDups(index, name, Cuts(name), |Cuts(name)|);
  }

  lemma OverwriteKeepsNoDups(s: Store, v: string, overrides: set<string>)
    requires NoDups(s.index)
    ensures NoDups(Overwrite(s, v, overrides).index)
  {
    var s1 := s.(vars := s.vars[v := FlagsOf(s, v) - {APPEND, PREPEND, REMOVE}]);
    if v in s1.index {
      var active := ActiveNames(s1.index[v], overrides);
      DelVarsKeepNoDups(s1, active, |active|);
    }
  }

  lemma AssignKeepsNoDups(s: Store, v: string, value: string, parsing: bool, overrides: set<string>)
    requires NoDups(s.index)
    ensures NoDups(Assign(s, v, value, parsing, overrides).index)
  {
    hide NoDups, PlainStore.Indexed, PlainStore.Overwrite;
    var s1 := s.(vars := s.vars[v := FlagsOf(s, v)]);
    OverwriteKeepsNoDups(s1, v, overrides);
    IndexingKeepsNoDups(if parsing then s1.index else Overwrite(s1, v, overrides).index, v);
  }

  lemma QueueKeepsNoDups(s: Store, op: Operation, value: string)
    requires NoDups(s.index)
    ensures NoDups(Queue(s, op, value).index)
  {
    hide NoDups, PlainStore.Indexed, PlainStore.OpsOf;
    var l := OpsOf(FlagsOf(s, op.base), op.keyword) + [(value, op.add)];
    IndexingKeepsNoDups(s.index, op.base);
    IndexingKeepsNoDups(SetFlag(s, op.base, op.keyword, Ops(l)).index, op.base);
  }

  /** No update ever lists an entry twice. */
  lemma UpdateKeepsNoDups(s: Store, u: Update)
    requires NoDups(s.index)
    ensures NoDups(Apply(s, u).index)
  {
    hide NoDups, PlainStore.Indexed, PlainStore.Assign, PlainStore.DelVar, PlainStore.KindOf, PlainStore.Queue;
    match u
    case Set(v, value, parsing, overrides) =>
      AssignKeepsNoDups(s, v, value, parsing, overrides);
      if KindOf(v).Queued? { QueueKeepsNoDups(s, KindOf(v).op, value); }
    case SetF(v, flag, val) => IndexingKeepsNoDups(s.index, v);
    case DelF(v, flag) =>
    case Del(v) => DelVarKeepsNoDups(s, v);
  }

  // ---- the index after each update ----

  lemma DelVarIndex(s: Store, v: string, k: string, e: (string, string))
    requires NoDups(s.index)
    ensures NoDups(DelVar(s, v).index)
    ensures Has(DelVar(s, v).index, k, e) <==>
      Has(s.index, k, e) && k != v && !(':' in v && e.0 == v && EntryOf(v, k, e.1))
  {
    UnindexedIff(s.index - {v}, v, k, e);
    hide PlainStore.Unindexed, EntryOf;
  }

  /** The entry is that of a name with a colon which is deleted, or under a name which is deleted. */
  ghost predicate Dropped(vs: seq<string>, k: string, e: (string, string)) {
    k in vs || (e.0 in vs && ':' in e.0 && EntryOf(e.0, k, e.1))
  }

  lemma {:induction false} DelVarsIndex(s: Store, vs: seq<string>, i: nat, k: string, e: (string, string))
    requires i <= |vs| && NoDups(s.index)
    ensures NoDups(DelVars(s, vs, i).index)
    ensures Has(DelVars(s, vs, i).index, k, e) <==> Has(s.index, k, e) && !Dropped(vs[..i], k, e)
  {
    hide EntryOf, NoDups, Has, PlainStore.DelVar;
    if i > 0 {
      DelVarsIndex(s, vs, i - 1, k, e);
      DelVarIndex(DelVars(s, vs, i - 1), vs[i - 1], k, e);
      assert vs[..i] == vs[..i - 1] + [vs[i - 1]];
    }
  }

  /** An assignment outside parsing deletes what actively overrides the variable, and its own row. */
  ghost predicate Outlives(s: Store, v: string, overrides: set<string>, k: string, e: (string, string)) {
    && k != v && !ActivelyOverrides(s, v, overrides, k)
    && !(':' in e.0 && EntryOf(e.0, k, e.1) && ActivelyOverrides(s, v, overrides, e.0))
  }

  lemma OverwriteIndex(s: Store, v: string, overrides: set<string>, k: string, e: (string, string))
    requires NoDups(s.index)
    ensures NoDups(Overwrite(s, v, overrides).index)
    ensures Has(Overwrite(s, v, overrides).index, k, e) <==> Has(s.index, k, e) && Outlives(s, v, overrides, k, e)
  {
    OverwriteKeepsNoDups(s, v, overrides);
    if v in s.index {
      var s1 := s.(vars := s.vars[v := FlagsOf(s, v) - {APPEND, PREPEND, REMOVE}]);
      var active := ActiveNames(s1.index[v], overrides);
      DelVarsIndex(s1, active, |active|, k, e);
      ActiveNamesElem(s1.index[v], overrides, k);
      ActiveNamesElem(s1.index[v], overrides, e.0);
      assert active[..|active|] == active;
    } else {
      hide EntryOf;
    }
  }

  /** What the update adds to the index: the entries of this name. */
  function Adds(u: Update): seq<string> {
    match u
    case Set(v, _, _, _) =>
      (match KindOf(v)
       case Refused => []
       case Queued(op) => [op.base]
       case Plain => if ':' in v then [v] else [])
    case SetF(v, flag, _) => if flag == "_defaultval" && ':' in v then [v] else []
    case _ => []
  }

  /** An entry that is there stays. */
  ghost predicate Keeps(s: Store, u: Update, k: string, e: (string, string)) {
    match u
    case Set(v, _, parsing, overrides) => !KindOf(v).Plain? || parsing || Outlives(s, v, overrides, k, e)
    case Del(v) => k != v && !(':' in v && e.0 == v && EntryOf(v, k, e.1))
    case _ => true
  }

  lemma AssignIndex(s: Store, v: string, value: string, parsing: bool, overrides: set<string>, k: string,
      e: (string, string))
    requires NoDups(s.index)
    ensures Has(Assign(s, v, value, parsing, overrides).index, k, e) <==>
      (Has(s.index, k, e) && (parsing || Outlives(s, v, overrides, k, e))) || (':' in v && e.0 == v && EntryOf(v, k, e.1))
  {
    var s1 := s.(vars := s.vars[v := FlagsOf(s, v)]);
    OverwriteIndex(s1, v, overrides, k, e);
    assert Outlives(s1, v, overrides, k, e) <==> Outlives(s, v, overrides, k, e);
    hide Has, EntryOf, Outlives, NoDups, PlainStore.Overwrite, PlainStore.Indexed;
    IndexedIff(if parsing then s1.index else Overwrite(s1, v, overrides).index, v, k, e);
  }

  lemma QueueIndex(s: Store, op: Operation, value: string, k: string, e: (string, string))
    requires op.keyword in [APPEND, PREPEND, REMOVE]
    ensures Has(Queue(s, op, value).index, k, e) <==> Has(s.index, k, e) || (e.0 == op.base && EntryOf(op.base, k, e.1))
  {
    hide Has, EntryOf, PlainStore.Indexed, PlainStore.OpsOf;
    IndexedIff(s.index, op.base, k, e);
  }

  /** The index after an update, entry by entry: what it held and keeps, and the entries of one name at most. */
  lemma UpdateIndexIff(s: Store, u: Update, k: string, e: (string, string))
    requires NoDups(s.index)
    ensures NoDups(Apply(s, u).index)
    ensures Has(Apply(s, u).index, k, e) <==>
      (Has(s.index, k, e) && Keeps(s, u, k, e)) || (e.0 in Adds(u) && EntryOf(e.0, k, e.1))
  {
    UpdateKeepsNoDups(s, u);
    hide Has, EntryOf, NoDups, Outlives, PlainStore.Assign, PlainStore.Queue, PlainStore.DelVar, PlainStore.Indexed;
    match u
    case Set(v, value, parsing, overrides) =>
      if KindOf(v).Queued? {
        KeywordOfKind(v);
        QueueIndex(s, KindOf(v).op, value, k, e);
      }
      hide PlainStore.KindOf;
      AssignIndex(s, v, value, parsing, overrides, k, e);
    case SetF(v, flag, val) => IndexedIff(s.index, v, k, e);
    case DelF(v, flag) =>
    case Del(v) => DelVarIndex(s, v, k, e);
  }

  lemma KeywordOfKind(v: string)
    requires KindOf(v).Queued?
    ensures KindOf(v).op.keyword in [APPEND, PREPEND, REMOVE]
  {
    OperationIff(v, KindOf(v).op);
  }

  /** From the empty store on, whatever the updates: no entry is listed twice. */
  lemma {:induction false} RunKeepsNoDups(us: seq<Update>)
    ensures NoDups(ApplyAll(Store(map[], map[]), us).index)
  {
    if us != [] {
      RunKeepsNoDups(us[..|us| - 1]);
      UpdateKeepsNoDups(ApplyAll(Store(map[], map[]), us[..|us| - 1]), us[|us| - 1]);
    }
  }
}

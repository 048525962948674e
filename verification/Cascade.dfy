/**
 The failure cascade of bitbake/lib/bb/taskdata.py on values: provider lists, the
 dependency tables, and the least set of recipes that a failure takes down.
 */
module Cascade {
  import opened Lists

  type Name = string
  type Fn = string
  type Task = string

  /** DEPENDS and RDEPENDS names live in separate namespaces. */
  datatype Target = Build(name: Name) | Run(name: Name)
  type Providers = map<Target, seq<Fn>>

  /** The intertask dependencies of one task. */
  datatype TaskEntry = TaskEntry(idepends: seq<(Name, Task)>, irdepends: seq<(Name, Task)>)

  /**
   What recipes need: `depids`, `rdepids` and `taskentries`. The task ids `fn:task` of
   `taskentries` are split into their two parts, so that taking `fn` back is a lookup.
   */
  datatype Needs = Needs(
    depids: map<Fn, set<Name>>, rdepids: map<Fn, set<Name>>, entries: map<Fn, map<Task, TaskEntry>>)

  predicate Mentions(deps: seq<(Name, Task)>, name: Name) {
    exists i :: 0 <= i < |deps| && deps[i].0 == name
  }

  predicate EntryMentions(e: TaskEntry, target: Target) {
    match target
    case Build(name) => Mentions(e.idepends, name)
    case Run(name) => Mentions(e.irdepends, name)
  }

  /** Recipes with a task whose intertask dependencies name `target`. */
  function TaskDependees(n: Needs, target: Target): set<Fn> {
    set fn | fn in n.entries && exists k :: k in n.entries[fn] && EntryMentions(n.entries[fn][k], target)
  }

  /** `get_dependees` and `get_rdependees`. */
  function Dependees(n: Needs, target: Target): set<Fn> {
    match target
    case Build(name) => set fn | fn in n.depids && name in n.depids[fn]
    case Run(name) => set fn | fn in n.rdepids && name in n.rdepids[fn]
  }

  /** Every recipe that fails when `target` is removed. */
  function Victims(n: Needs, target: Target): set<Fn> {
    Dependees(n, target) + TaskDependees(n, target)
  }

  /** Every recipe that can fail because of a target: bounds the recursion. */
  function AllFns(n: Needs): set<Fn> {
    n.depids.Keys + n.rdepids.Keys + n.entries.Keys
  }

  lemma VictimsAreKnown(n: Needs, t: Target)
    ensures Victims(n, t) <= AllFns(n)
  {
  }

  // ---- the least set of failed recipes ----

  /** A target with providers, all of which fail, is removed and takes its victims down. */
  ghost predicate Closed(lists: Providers, n: Needs, failed: set<Fn>) {
    forall t :: t in lists && lists[t] != [] && Elems(lists[t]) <= failed ==> Victims(n, t) <= failed
  }

  /** The recipes that are in every closed set above `seed`. */
  ghost function LeastFailed(lists: Providers, n: Needs, seed: set<Fn>): set<Fn> {
    set fn | fn in seed + AllFns(n) && forall l :: seed <= l && Closed(lists, n, l) ==> fn in l
  }

  lemma LeastFailedIsLeast(lists: Providers, n: Needs, seed: set<Fn>, l: set<Fn>)
    requires seed <= l && Closed(lists, n, l)
    ensures LeastFailed(lists, n, seed) <= l
  {
  }

  lemma LeastFailedIsClosed(lists: Providers, n: Needs, seed: set<Fn>)
    ensures seed <= LeastFailed(lists, n, seed)
    ensures Closed(lists, n, LeastFailed(lists, n, seed))
  {
    var least := LeastFailed(lists, n, seed);
    forall t, fn | t in lists && lists[t] != [] && Elems(lists[t]) <= least && fn in Victims(n, t)
      ensures fn in least
    {
      VictimsAreKnown(n, t);
      forall l | seed <= l && Closed(lists, n, l) ensures fn in l {
        LeastFailedIsLeast(lists, n, seed, l);
        assert Elems(lists[t]) <= l;
      }
    }
  }

  /** A set holding every recipe the tables know is closed. */
  lemma EverythingIsClosed(lists: Providers, n: Needs, l: set<Fn>)
    requires AllFns(n) <= l
    ensures Closed(lists, n, l)
  {
    forall t ensures Victims(n, t) <= l { VictimsAreKnown(n, t); }
  }

  // ---- what a (possibly nested) call does to the state ----

  datatype State = State(lists: Providers, failed: set<Fn>, removed: multiset<Target>)

  ghost predicate ListsOk(m: Providers) {
    forall t :: t in m ==> NoDup(m[t])
  }

  /** `m'` is `m` with exactly the recipes of `gone` taken out of every list. */
  ghost predicate ShrunkBy(m: Providers, m': Providers, gone: set<Fn>) {
    m'.Keys == m.Keys && forall t :: t in m ==> m'[t] == Without(m[t], gone)
  }

  function Emptied(m: Providers, m': Providers): set<Target> {
    set t | t in m && t in m' && m[t] != [] && m'[t] == []
  }

  /** Recipes fail, leave every list, and each target that this empties is removed once, with its victims. */
  ghost predicate Cascaded(n: Needs, s: State, s': State) {
    && s.failed <= s'.failed
    && ShrunkBy(s.lists, s'.lists, s'.failed - s.failed)
    && s'.removed == s.removed + multiset(Emptied(s.lists, s'.lists))
    && forall t :: t in Emptied(s.lists, s'.lists) ==> Victims(n, t) <= s'.failed
  }

  /** `remove_buildtarget`/`remove_runtarget`: `t` is removed, whatever its list holds. */
  ghost predicate Removed(n: Needs, s: State, s': State, t: Target) {
    Cascaded(n, s.(removed := s.removed + multiset{t}), s') && Victims(n, t) <= s'.failed
  }

  lemma CascadedNothing(n: Needs, s: State)
    ensures Cascaded(n, s, s)
  {
    assert s.failed - s.failed == {};
    forall t | t in s.lists ensures s.lists[t] == Without(s.lists[t], {}) {
      WithoutAbsent(s.lists[t], {});
    }
  }

  lemma ShrunkTwice(m: Providers, m1: Providers, m2: Providers, d: set<Fn>, e: set<Fn>)
    requires ShrunkBy(m, m1, d) && ShrunkBy(m1, m2, e)
    ensures ShrunkBy(m, m2, d + e)
    ensures Emptied(m, m2) == Emptied(m, m1) + Emptied(m1, m2)
    ensures Emptied(m, m1) !! Emptied(m1, m2)
  {
    assert Without<Fn>([], e) == [];
    forall t | t in m ensures m2[t] == Without(m[t], d + e) { WithoutTwice(m[t], d, e); }
  }

  lemma CascadedTwice(n: Needs, s: State, s1: State, s2: State)
    requires Cascaded(n, s, s1) && Cascaded(n, s1, s2)
    ensures Cascaded(n, s, s2)
  {
    ShrunkTwice(s.lists, s1.lists, s2.lists, s1.failed - s.failed, s2.failed - s1.failed);
    assert s2.failed - s.failed == (s1.failed - s.failed) + (s2.failed - s1.failed);
  }

  lemma ShrunkListsOk(m: Providers, m': Providers, d: set<Fn>)
    requires ListsOk(m) && ShrunkBy(m, m', d)
    ensures ListsOk(m')
  {
    forall t | t in m' ensures NoDup(m'[t]) { WithoutNoDup(m[t], d); }
  }

  /** Taking members of a closed set out of the lists keeps the set closed. */
  lemma ClosedShrinks(m: Providers, m': Providers, n: Needs, gone: set<Fn>, l: set<Fn>)
    requires Closed(m, n, l) && ShrunkBy(m, m', gone) && gone <= l
    ensures Closed(m', n, l)
  {
    forall t | t in m' && m'[t] != [] && Elems(m'[t]) <= l ensures Victims(n, t) <= l {
      WithoutElems(m[t], gone);
      WithoutElem(m[t], gone, m'[t][0]);
    }
  }

  // ---- the sweep of `fail_fn` over the provider lists ----

  /** Halfway: `fn` is marked as failed, but the targets of `todo` still list it. */
  ghost predicate Sweeping(n: Needs, s: State, s': State, fn: Fn, todo: set<Target>) {
    var gone := s'.failed - s.failed - {fn};
    && s.failed + {fn} <= s'.failed && fn !in s.failed
    && s'.lists.Keys == s.lists.Keys && todo <= s.lists.Keys
    && (forall t :: t in s.lists ==>
         s'.lists[t] == Without(s.lists[t], if t in todo then gone else gone + {fn}))
    && s'.removed == s.removed + multiset(Emptied(s.lists, s'.lists))
    && forall t :: t in Emptied(s.lists, s'.lists) ==> Victims(n, t) <= s'.failed
  }

  lemma SweepStarts(n: Needs, s: State, fn: Fn)
    requires fn !in s.failed
    ensures Sweeping(n, s, s.(failed := s.failed + {fn}), fn, s.lists.Keys)
  {
    assert s.failed + {fn} - s.failed - {fn} == {};
    forall t | t in s.lists ensures s.lists[t] == Without(s.lists[t], {}) {
      WithoutAbsent(s.lists[t], {});
    }
  }

  lemma SweepEnds(n: Needs, s: State, s': State, fn: Fn)
    requires Sweeping(n, s, s', fn, {})
    ensures Cascaded(n, s, s')
  {
    assert s'.failed - s.failed == s'.failed - s.failed - {fn} + {fn};
  }

  lemma SweepClosed(n: Needs, s: State, s': State, fn: Fn, todo: set<Target>, l: set<Fn>)
    requires Sweeping(n, s, s', fn, todo) && Closed(s.lists, n, l) && s'.failed <= l
    ensures Closed(s'.lists, n, l)
  {
    forall t | t in s'.lists && s'.lists[t] != [] && Elems(s'.lists[t]) <= l ensures Victims(n, t) <= l {
      var gone := s'.failed - s.failed - {fn};
      var d := if t in todo then gone else gone + {fn};
      WithoutElems(s.lists[t], d);
      WithoutElem(s.lists[t], d, s'.lists[t][0]);
    }
  }

  lemma SweepListsOk(n: Needs, s: State, s': State, fn: Fn, todo: set<Target>)
    requires Sweeping(n, s, s', fn, todo) && ListsOk(s.lists)
    ensures ListsOk(s'.lists)
  {
    forall t | t in s'.lists ensures NoDup(s'.lists[t]) {
      var gone := s'.failed - s.failed - {fn};
      WithoutNoDup(s.lists[t], if t in todo then gone else gone + {fn});
    }
  }

  /** The recipe is not listed for this target: nothing to do. */
  lemma SweepSkips(n: Needs, s: State, s': State, fn: Fn, todo: set<Target>, t: Target)
    requires Sweeping(n, s, s', fn, todo) && t in todo && fn !in s'.lists[t]
    ensures Sweeping(n, s, s', fn, todo - {t})
  {
    var gone := s'.failed - s.failed - {fn};
    WithoutTwice(s.lists[t], gone, {fn});
    WithoutAbsent(s'.lists[t], {fn});
  }

  /** The state after the recipe has been taken out of one list. */
  function Dropped(s: State, t: Target, fn: Fn): State
    requires t in s.lists
  {
    s.(lists := s.lists[t := RemoveFirst(s.lists[t], fn)])
  }

  /** The list still has another provider. */
  lemma SweepDrops(n: Needs, s: State, s': State, fn: Fn, todo: set<Target>, t: Target)
    requires ListsOk(s.lists) && Sweeping(n, s, s', fn, todo) && t in todo
    requires RemoveFirst(s'.lists[t], fn) != []
    ensures Sweeping(n, s, Dropped(s', t, fn), fn, todo - {t})
  {
    SweepListsOk(n, s, s', fn, todo);
    RemoveFirstIsWithout(s'.lists[t], fn);
    WithoutTwice(s.lists[t], s'.failed - s.failed - {fn}, {fn});
    assert Emptied(s.lists, Dropped(s', t, fn).lists) == Emptied(s.lists, s'.lists) by {
      assert Without<Fn>([], {fn}) == [];
    }
  }

  /** The list is empty now, and `t` has been removed. */
  lemma SweepRemoves(
      n: Needs, s: State, s1: State, s2: State, fn: Fn, todo: set<Target>, t: Target)
    requires ListsOk(s.lists) && Sweeping(n, s, s1, fn, todo) && t in todo && fn in s1.lists[t]
    requires RemoveFirst(s1.lists[t], fn) == []
    requires Removed(n, Dropped(s1, t, fn), s2, t)
    ensures Sweeping(n, s, s2, fn, todo - {t})
  {
    var mid := Dropped(s1, t, fn).lists;
    SweepRemovesLists(n, s, s1, s2, fn, todo, t);
    SweepEmptied(s.lists, s1.lists, mid, s2.lists, t);
    forall u | u in Emptied(s.lists, s2.lists) ensures Victims(n, u) <= s2.failed {
      if u != t && u !in Emptied(s.lists, s1.lists) { assert u in Emptied(mid, s2.lists); }
    }
  }

  lemma SweepRemovesLists(
      n: Needs, s: State, s1: State, s2: State, fn: Fn, todo: set<Target>, t: Target)
    requires ListsOk(s.lists) && Sweeping(n, s, s1, fn, todo) && t in todo && fn in s1.lists[t]
    requires RemoveFirst(s1.lists[t], fn) == []
    requires Removed(n, Dropped(s1, t, fn), s2, t)
    ensures var gone := s2.failed - s.failed - {fn};
      forall u :: u in s.lists ==>
        s2.lists[u] == Without(s.lists[u], if u in todo - {t} then gone else gone + {fn})
    ensures forall u :: u in s.lists && (s1.lists[u] == [] || u == t) ==> s2.lists[u] == []
    ensures s.lists[t] != []
  {
    hide Emptied, Victims;
    var gone1 := s1.failed - s.failed - {fn};
    var gone2 := s2.failed - s.failed - {fn};
    var e := s2.failed - s1.failed;
    assert gone2 == gone1 + e;
    SweepListsOk(n, s, s1, fn, todo);
    RemoveFirstIsWithout(s1.lists[t], fn);
    WithoutTwice(s.lists[t], gone1, {fn});
    assert Without<Fn>([], e) == [] && Without<Fn>([], gone1) == [];
    var mid := Dropped(s1, t, fn).lists;
    forall u | u in s.lists
      ensures s2.lists[u] == Without(s.lists[u], if u in todo - {t} then gone2 else gone2 + {fn})
    {
      var d := if u in todo - {t} then gone1 else gone1 + {fn};
      assert mid[u] == Without(s.lists[u], d);
      WithoutTwice(s.lists[u], d, e);
      assert d + e == if u in todo - {t} then gone2 else gone2 + {fn};
    }
  }

  lemma SweepEmptied(m: Providers, m1: Providers, mid: Providers, m2: Providers, t: Target)
    requires m.Keys == m1.Keys == mid.Keys == m2.Keys && t in m
    requires m[t] != [] && m1[t] != [] && mid == m1[t := []]
    requires forall u :: u in m && m[u] == [] ==> m1[u] == []
    requires forall u :: u in m && mid[u] == [] ==> m2[u] == []
    ensures Emptied(m, m2) == Emptied(m, m1) + {t} + Emptied(mid, m2)
    ensures multiset(Emptied(m, m2)) == multiset(Emptied(m, m1)) + multiset{t} + multiset(Emptied(mid, m2))
  {
    assert Emptied(m, m2) == Emptied(m, m1) + {t} + Emptied(mid, m2);
  }

  // ---- an outermost call reaches exactly the least closed set ----

  /** No failed recipe is listed as a provider. */
  ghost predicate Clean(s: State) {
    forall t, f :: t in s.lists && f in s.lists[t] ==> f !in s.failed
  }

  ghost function Shrunk(m: Providers, gone: set<Fn>): Providers {
    map t | t in m :: Without(m[t], gone)
  }

  /** The one state in which the failure of `seed` can end, whatever order the dictionaries iterate in. */
  ghost function AfterFailure(n: Needs, s: State, seed: set<Fn>): State {
    var failed := LeastFailed(s.lists, n, s.failed + seed);
    var lists := Shrunk(s.lists, failed - s.failed);
    State(lists, failed, s.removed + multiset(Emptied(s.lists, lists)))
  }

  lemma CascadedIsClosed(n: Needs, s: State, s': State)
    requires Clean(s) && Cascaded(n, s, s')
    ensures Closed(s.lists, n, s'.failed)
    ensures Clean(s')
  {
    var gone := s'.failed - s.failed;
    forall t | t in s.lists && s.lists[t] != [] && Elems(s.lists[t]) <= s'.failed
      ensures Victims(n, t) <= s'.failed
    {
      WithoutAll(s.lists[t], gone);
      assert t in Emptied(s.lists, s'.lists);
    }
    forall t, f | t in s'.lists && f in s'.lists[t] ensures f !in s'.failed {
      WithoutElem(s.lists[t], gone, f);
    }
  }

  lemma CascadeIsLeast(n: Needs, s: State, s': State, seed: set<Fn>)
    requires Clean(s) && Cascaded(n, s, s') && seed <= s'.failed
    requires s'.failed <= LeastFailed(s.lists, n, s.failed + seed)
    ensures s' == AfterFailure(n, s, seed)
    ensures Clean(s')
  {
    CascadedIsClosed(n, s, s');
    LeastFailedIsLeast(s.lists, n, s.failed + seed, s'.failed);
    assert s'.failed == LeastFailed(s.lists, n, s.failed + seed);
    assert s'.lists == Shrunk(s.lists, s'.failed - s.failed);
  }
}

/**
 Target resolution of bitbake/lib/bb/taskdata.py on values: the parsed recipes, the
 invariant between two calls, and what "resolved" means.
 */
module Resolution {
  import opened Lists
  import opened Cascade

  /** A parsed recipe; `rdeps` joins RDEPENDS and RRECOMMENDS over all packages. */
  datatype Recipe = Recipe(deps: set<Name>, rdeps: set<Name>, tasks: map<Task, TaskEntry>)

  /** What `filterProvidersRunTime` answers for one runtime name. */
  datatype RunChoice = RunChoice(eligible: seq<Fn>, numberPreferred: nat)

  /** The read-only `dataCache`; names without any provider are absent. */
  datatype Catalogue = Catalogue(
    recipes: map<Fn, Recipe>, providers: map<Name, seq<Fn>>, rproviders: map<Name, RunChoice>,
    ignored: Name -> bool)

  ghost predicate CatalogueOk(c: Catalogue) {
    && (forall n, f :: n in c.providers && f in c.providers[n] ==> f in c.recipes)
    && (forall n, f :: n in c.rproviders && f in c.rproviders[n].eligible ==> f in c.recipes)
  }

  /** The dependency tables once `seen` has been added: a function of the recipes alone. */
  function NeedsOf(c: Catalogue, seen: set<Fn>): Needs
    requires seen <= c.recipes.Keys
  {
    Needs(
      map f | f in seen :: c.recipes[f].deps,
      map f | f in seen :: c.recipes[f].rdeps,
      map f | f in seen :: c.recipes[f].tasks)
  }

  lemma NeedsKnowSeen(c: Catalogue, seen: set<Fn>)
    requires seen <= c.recipes.Keys
    ensures AllFns(NeedsOf(c, seen)) == seen
  {
  }

  /** The targets a recipe's DEPENDS and RDEPENDS name. */
  function Wants(r: Recipe): set<Target> {
    (set d | d in r.deps :: Build(d)) + (set d | d in r.rdeps :: Run(d))
  }

  /** The targets its intertask dependencies name. */
  function Touches(e: TaskEntry): set<Target> {
    (set i | 0 <= i < |e.idepends| :: Build(e.idepends[i].0)) +
    (set i | 0 <= i < |e.irdepends| :: Run(e.irdepends[i].0))
  }

  function TouchesAll(tasks: map<Task, TaskEntry>): set<Target> {
    set k, t | k in tasks && t in Touches(tasks[k]) :: t
  }

  /** Every target any recipe can name: a finite universe. */
  function AllTargets(c: Catalogue): set<Target> {
    set f, t | f in c.recipes && t in Wants(c.recipes[f]) + TouchesAll(c.recipes[f].tasks) :: t
  }

  lemma RecipeTargets(c: Catalogue, f: Fn)
    requires f in c.recipes
    ensures Wants(c.recipes[f]) <= AllTargets(c) && TouchesAll(c.recipes[f].tasks) <= AllTargets(c)
  {
    forall t | t in Wants(c.recipes[f]) + TouchesAll(c.recipes[f].tasks) ensures t in AllTargets(c) {}
  }

  // ---- what may fail ----

  /** The files that may provide a target, in the order in which the selection of providers leaves them. */
  function SourceList(c: Catalogue, t: Target): seq<Fn> {
    match t
    case Build(name) => if name in c.providers then c.providers[name] else []
    case Run(name) => if name in c.rproviders then c.rproviders[name].eligible else []
  }

  function Sources(c: Catalogue, t: Target): set<Fn> {
    Elems(SourceList(c, t))
  }

  predicate Ambiguous(c: Catalogue, t: Target) {
    t.Run? && t.name in c.rproviders && c.rproviders[t.name].numberPreferred > 1
  }

  /**
   A target without providers, without a choice, or whose first provider is doomed. That can be
   enough: the target is removed as soon as all the providers added so far have failed.
   */
  ghost predicate Hopeless(c: Catalogue, doomed: set<Fn>, t: Target) {
    !c.ignored(t.name) && (SourceList(c, t) == [] || Ambiguous(c, t) || SourceList(c, t)[0] in doomed)
  }

  function Names(r: Recipe): set<Target> {
    Wants(r) + TouchesAll(r.tasks)
  }

  /** Every recipe that names a hopeless target is doomed. */
  ghost predicate Condemned(c: Catalogue, doomed: set<Fn>) {
    forall t, f :: f in c.recipes && t in Names(c.recipes[f]) && Hopeless(c, doomed, t) ==> f in doomed
  }

  /** Nothing fails, and nothing is removed, that is not in every condemned set: no failure without a cause. */
  ghost predicate Contained(c: Catalogue, s: State) {
    forall doomed :: Condemned(c, doomed) ==> s.failed <= doomed && forall t :: t in s.removed ==> Hopeless(c, doomed, t)
  }

  /** A file has been added for `t`, or it has failed. */
  ghost predicate Taken(s: State, t: Target, f: Fn) {
    f in s.failed || (t in s.lists && f in s.lists[t])
  }

  predicate Provided(lists: Providers, t: Target) {
    t in lists && lists[t] != []
  }

  /** Only the files that may provide a target are listed for it, and the first of them before the others. */
  ghost predicate Sourced(c: Catalogue, s: State) {
    forall t :: Provided(s.lists, t) ==>
      && !c.ignored(t.name) && !Ambiguous(c, t) && Elems(s.lists[t]) <= Sources(c, t)
      && SourceList(c, t) != [] && Taken(s, t, SourceList(c, t)[0])
  }

  /** None but recipes of the set can provide the target. */
  predicate Unfillable(c: Catalogue, fs: set<Fn>, t: Target) {
    !c.ignored(t.name) && (Sources(c, t) <= fs || Ambiguous(c, t))
  }

  /** When a build name, and when a runtime name, can be given a provider that has not failed. */
  lemma FoundIff(c: Catalogue, name: Name, failed: set<Fn>)
    ensures !Unfillable(c, failed, Build(name)) <==>
      c.ignored(name) || (name in c.providers && exists f :: f in c.providers[name] && f !in failed)
    ensures !Unfillable(c, failed, Run(name)) <==>
      c.ignored(name) || (name in c.rproviders && CanChoose(c.rproviders[name], failed))
  {
    assert forall t, f :: f in Sources(c, t) <==> f in SourceList(c, t);
  }

  /** At most one of the eligible files is preferred, and one has not failed. */
  predicate CanChoose(choice: RunChoice, failed: set<Fn>) {
    choice.numberPreferred < 2 && exists f :: f in choice.eligible && f !in failed
  }

  /** No way to add a provider: none is known, too many are preferred, or all have failed. */
  ghost predicate Unprovidable(c: Catalogue, s: State, t: Target) {
    Unfillable(c, s.failed, t)
  }

  /** Exactly the recipes added that name a target go down with it. */
  lemma VictimsNameIt(c: Catalogue, seen: set<Fn>, t: Target, f: Fn)
    requires seen <= c.recipes.Keys
    ensures f in Victims(NeedsOf(c, seen), t) <==> f in seen && t in Names(c.recipes[f])
  {
    var n := NeedsOf(c, seen);
    if f in seen {
      forall k | k in n.entries[f] ensures EntryMentions(n.entries[f][k], t) <==> t in Touches(c.recipes[f].tasks[k]) {
        MentionsIt(n.entries[f][k], t);
      }
      assert f in TaskDependees(n, t) <==> exists k :: k in n.entries[f] && EntryMentions(n.entries[f][k], t);
      assert f in TaskDependees(n, t) <==> t in TouchesAll(c.recipes[f].tasks);
    }
  }

  lemma MentionsIt(e: TaskEntry, t: Target)
    ensures EntryMentions(e, t) <==> t in Touches(e)
  {
  }

  lemma HopelessVictims(c: Catalogue, seen: set<Fn>, t: Target, doomed: set<Fn>)
    requires seen <= c.recipes.Keys && Condemned(c, doomed) && Hopeless(c, doomed, t)
    ensures Victims(NeedsOf(c, seen), t) <= doomed
  {
    forall f | f in Victims(NeedsOf(c, seen), t) ensures f in doomed { VictimsNameIt(c, seen, t, f); }
  }

  /** A condemned set is closed under the failure cascade. */
  lemma CondemnedIsClosed(c: Catalogue, seen: set<Fn>, s: State, doomed: set<Fn>)
    requires seen <= c.recipes.Keys && Sourced(c, s) && Condemned(c, doomed) && s.failed <= doomed
    ensures Closed(s.lists, NeedsOf(c, seen), doomed)
  {
    forall t | t in s.lists && s.lists[t] != [] && Elems(s.lists[t]) <= doomed
      ensures Victims(NeedsOf(c, seen), t) <= doomed
    {
      assert Provided(s.lists, t);
      var f := SourceList(c, t)[0];
      assert f in s.failed || f in Elems(s.lists[t]);
      HopelessVictims(c, seen, t, doomed);
    }
  }

  /** The failure of recipes that every condemned set has stays contained. */
  lemma ContainedAfter(c: Catalogue, seen: set<Fn>, s: State, seed: set<Fn>)
    requires seen <= c.recipes.Keys && Sourced(c, s) && Contained(c, s)
    requires forall doomed :: Condemned(c, doomed) ==> seed <= doomed
    ensures Contained(c, AfterFailure(NeedsOf(c, seen), s, seed)) && Sourced(c, AfterFailure(NeedsOf(c, seen), s, seed))
  {
    var n := NeedsOf(c, seen);
    var s' := AfterFailure(n, s, seed);
    LeastFailedIsClosed(s.lists, n, s.failed + seed);
    SourcedAfter(c, s, s');
    forall doomed | Condemned(c, doomed)
      ensures s'.failed <= doomed && forall t :: t in s'.removed ==> Hopeless(c, doomed, t)
    {
      hide Sourced;
      CondemnedIsClosed(c, seen, s, doomed);
      LeastFailedIsLeast(s.lists, n, s.failed + seed, doomed);
      forall t | t in s'.removed ensures Hopeless(c, doomed, t) {
        if t !in s.removed { EmptiedIsHopeless(c, s, s', doomed, t); }
      }
    }
  }

  lemma SourcedAfter(c: Catalogue, s: State, s': State)
    requires Sourced(c, s) && s.failed <= s'.failed && ShrunkBy(s.lists, s'.lists, s'.failed - s.failed)
    ensures Sourced(c, s')
  {
    forall t | Provided(s'.lists, t)
      ensures !c.ignored(t.name) && !Ambiguous(c, t) && Elems(s'.lists[t]) <= Sources(c, t)
      ensures SourceList(c, t) != [] && Taken(s', t, SourceList(c, t)[0])
    {
      forall f ensures f in s'.lists[t] <==> f in s.lists[t] && f !in s'.failed - s.failed {
        WithoutElem(s.lists[t], s'.failed - s.failed, f);
      }
      assert s'.lists[t][0] in s.lists[t] && Provided(s.lists, t);
    }
  }

  lemma EmptiedIsHopeless(c: Catalogue, s: State, s': State, doomed: set<Fn>, t: Target)
    requires Sourced(c, s) && s.failed <= s'.failed <= doomed && t in Emptied(s.lists, s'.lists)
    requires s'.lists[t] == Without(s.lists[t], s'.failed - s.failed)
    ensures Hopeless(c, doomed, t)
  {
    assert Provided(s.lists, t);
    WithoutElem(s.lists[t], s'.failed - s.failed, SourceList(c, t)[0]);
  }

  // ---- the invariant ----

  /** Some target lists `f` as a provider. */
  ghost predicate IsListed(s: State, f: Fn) {
    exists t :: t in s.lists && f in s.lists[t]
  }

  /** Every target `f` names is in the tables and has not been removed. */
  ghost predicate Met(c: Catalogue, s: State, f: Fn)
    requires f in c.recipes
  {
    forall t :: t in Wants(c.recipes[f]) ==> t in s.lists && t !in s.removed
  }

  /**
   `seen` are the recipes added so far; `pending` is the one being added, if any.
   Listed providers are seen and unfailed, no unfailed recipe needs a removed target, and none
   has been added but as a provider.
   */
  ghost predicate Inv(c: Catalogue, seen: set<Fn>, n: Needs, s: State, pending: set<Fn>) {
    && seen <= c.recipes.Keys && n == NeedsOf(c, seen)
    && ListsOk(s.lists) && Clean(s) && s.failed <= seen
    && (forall t, f :: t in s.lists && f in s.lists[t] ==> f in seen + pending)
    && (forall f :: f in seen - s.failed - pending ==> Met(c, s, f))
    && (forall f :: f in seen - s.failed ==> IsListed(s, f))
    && Sourced(c, s) && Contained(c, s)
  }

  lemma WantsAreVictims(c: Catalogue, seen: set<Fn>, f: Fn, t: Target)
    requires seen <= c.recipes.Keys && f in seen && t in Wants(c.recipes[f])
    ensures f in Victims(NeedsOf(c, seen), t)
  {
  }

  /** A listed recipe that does not fail stays listed. */
  lemma StillListed(seen: set<Fn>, s: State, s': State)
    requires s.failed <= s'.failed && ShrunkBy(s.lists, s'.lists, s'.failed - s.failed)
    requires forall f :: f in seen - s.failed ==> IsListed(s, f)
    ensures forall f :: f in seen - s'.failed ==> IsListed(s', f)
  {
    forall f | f in seen - s'.failed ensures IsListed(s', f) {
      assert IsListed(s, f);
      var t :| t in s.lists && f in s.lists[t];
      WithoutElem(s.lists[t], s'.failed - s.failed, f);
    }
  }

  /** A recipe whose targets are there, and that does not fail, finds none of them removed now. */
  lemma StillMet(c: Catalogue, seen: set<Fn>, n: Needs, s: State, s': State, f: Fn)
    requires seen <= c.recipes.Keys && n == NeedsOf(c, seen) && Cascaded(n, s, s')
    requires f in seen - s'.failed && f in c.recipes
    requires forall t :: t in Wants(c.recipes[f]) ==> t in s.lists && (t in s.removed ==> f in s'.failed)
    ensures Met(c, s', f)
  {
    forall t | t in Wants(c.recipes[f]) ensures t in s'.lists && t !in s'.removed {
      WantsAreVictims(c, seen, f, t);
    }
  }

  lemma StillKnown(s: State, s': State, known: set<Fn>)
    requires ShrunkBy(s.lists, s'.lists, s'.failed - s.failed)
    requires forall t, f :: t in s.lists && f in s.lists[t] ==> f in known
    ensures forall t, f :: t in s'.lists && f in s'.lists[t] ==> f in known
  {
    forall t, f | t in s'.lists && f in s'.lists[t] ensures f in known {
      WithoutElem(s.lists[t], s'.failed - s.failed, f);
    }
  }

  lemma InvCascade(c: Catalogue, seen: set<Fn>, n: Needs, s: State, s': State, pending: set<Fn>)
    requires Inv(c, seen, n, s, pending) && Cascaded(n, s, s') && s'.failed <= seen
    requires Sourced(c, s') && Contained(c, s')
    ensures Inv(c, seen, n, s', pending)
  {
    CascadedIsClosed(n, s, s');
    StillListed(seen, s, s');
    ShrunkListsOk(s.lists, s'.lists, s'.failed - s.failed);
    StillKnown(s, s', seen + pending);
    forall f | f in seen - s'.failed - pending ensures Met(c, s', f) {
      assert Met(c, s, f);
      StillMet(c, seen, n, s, s', f);
    }
    hide Sourced, Contained, Closed, Clean, ListsOk, Cascaded, Met, IsListed, NeedsOf, Wants;
  }

  lemma InvRemoved(c: Catalogue, seen: set<Fn>, n: Needs, s: State, s': State, t: Target)
    requires Inv(c, seen, n, s, {}) && Removed(n, s, s', t) && s'.failed <= seen
    requires Sourced(c, s') && Contained(c, s')
    ensures Inv(c, seen, n, s', {})
  {
    var s1 := s.(removed := s.removed + multiset{t});
    RemovedMet(c, seen, n, s, s', t);
    hide Sourced, Contained, Closed, Met, IsListed, NeedsOf, Wants, Victims;
    CascadedIsClosed(n, s1, s');
    StillListed(seen, s, s');
    ShrunkListsOk(s.lists, s'.lists, s'.failed - s.failed);
    StillKnown(s, s', seen + {});
  }

  lemma RemovedMet(c: Catalogue, seen: set<Fn>, n: Needs, s: State, s': State, t: Target)
    requires Inv(c, seen, n, s, {}) && Removed(n, s, s', t)
    ensures forall f :: f in seen - s'.failed ==> Met(c, s', f)
  {
    hide Sourced, Contained, Clean, ListsOk, IsListed;
    forall f | f in seen - s'.failed ensures Met(c, s', f) {
      assert Met(c, s, f);
      if t in Wants(c.recipes[f]) { WantsAreVictims(c, seen, f, t); }
      StillMet(c, seen, n, s.(removed := s.removed + multiset{t}), s', f);
    }
  }

  /** `seen_build_target`/`seen_run_target` on targets of `u`: new ones start without providers. */
  ghost predicate Extends(m: Providers, m': Providers, u: set<Target>) {
    && m.Keys <= m'.Keys <= m.Keys + u
    && forall t :: t in m' ==> m'[t] == if t in m then m[t] else []
  }

  lemma InvExtends(
      c: Catalogue, seen: set<Fn>, n: Needs, s: State, m: Providers, u: set<Target>, pending: set<Fn>)
    requires Inv(c, seen, n, s, pending) && Extends(s.lists, m, u)
    ensures Inv(c, seen, n, s.(lists := m), pending)
    ensures Progressed(s, s.(lists := m))
  {
    SourcedExtends(c, s, m, u);
    hide Sourced, Contained, NeedsOf;
    ExtendsProgresses(s, m, u);
    forall f | f in seen - s.failed ensures IsListed(s.(lists := m), f) { ListedExtends(s, m, u, f); }
    forall f | f in seen - s.failed - pending ensures Met(c, s.(lists := m), f) { MetExtends(c, s, m, u, f); }
    hide Met, IsListed, Progressed;
  }

  lemma SourcedExtends(c: Catalogue, s: State, m: Providers, u: set<Target>)
    requires Sourced(c, s) && Contained(c, s) && Extends(s.lists, m, u)
    ensures Sourced(c, s.(lists := m)) && Contained(c, s.(lists := m))
  {
    assert forall t :: Provided(m, t) ==> Provided(s.lists, t);
  }

  lemma ExtendsProgresses(s: State, m: Providers, u: set<Target>)
    requires Extends(s.lists, m, u)
    ensures Progressed(s, s.(lists := m))
  {
  }

  lemma ListedExtends(s: State, m: Providers, u: set<Target>, f: Fn)
    requires IsListed(s, f) && Extends(s.lists, m, u)
    ensures IsListed(s.(lists := m), f)
  {
    var t :| t in s.lists && f in s.lists[t];
    assert t in m && f in m[t];
  }

  lemma MetExtends(c: Catalogue, s: State, m: Providers, u: set<Target>, f: Fn)
    requires f in c.recipes && Met(c, s, f) && Extends(s.lists, m, u)
    ensures Met(c, s.(lists := m), f)
  {
    hide Wants;
  }

  /** Every target that a task of one of the recipes names is in the tables. */
  ghost predicate Touched(c: Catalogue, fns: set<Fn>, lists: Providers) {
    forall f, t :: f in fns && f in c.recipes && t in TouchesAll(c.recipes[f].tasks) ==> t in lists
  }

  lemma TouchedStays(c: Catalogue, fns: set<Fn>, m: Providers, m': Providers)
    requires Touched(c, fns, m) && m.Keys <= m'.Keys
    ensures Touched(c, fns, m')
  {
    hide TouchesAll;
  }

  lemma OneTouched(c: Catalogue, fns: set<Fn>, fn: Fn, m: Providers)
    requires Touched(c, fns, m) && fn in c.recipes && TouchesAll(c.recipes[fn].tasks) <= m.Keys
    ensures Touched(c, fns + {fn}, m)
  {
    hide TouchesAll;
  }

  /** With nothing unresolved, what the task of a recipe added names is ignored, removed or provided. */
  lemma ResolvedTouches(c: Catalogue, seen: set<Fn>, s: State)
    requires Touched(c, seen, s.lists) && Unresolved(c, s) == {}
    ensures TasksSettled(c, seen, s)
  {
    hide TouchesAll, Settled;
    forall f, t | f in seen && f in c.recipes && t in TouchesAll(c.recipes[f].tasks) && !c.ignored(t.name)
      ensures Settled(s, t)
    {
      assert t !in Unresolved(c, s);
    }
  }

  ghost predicate TasksSettled(c: Catalogue, seen: set<Fn>, s: State) {
    forall f, t :: f in seen && f in c.recipes && t in TouchesAll(c.recipes[f].tasks) ==>
      c.ignored(t.name) || Settled(s, t)
  }

  /** Entering one recipe into the dependency tables. */
  function Entered(n: Needs, f: Fn, r: Recipe): Needs {
    Needs(n.depids[f := r.deps], n.rdepids[f := r.rdeps],
          n.entries[f := r.tasks])
  }

  lemma EnteredIsNeeds(c: Catalogue, seen: set<Fn>, f: Fn)
    requires seen <= c.recipes.Keys && f in c.recipes && f !in seen
    ensures Entered(NeedsOf(c, seen), f, c.recipes[f]) == NeedsOf(c, seen + {f})
  {
    var n := Entered(NeedsOf(c, seen), f, c.recipes[f]);
    var n' := NeedsOf(c, seen + {f});
    assert n.depids == n'.depids;
    assert n.rdepids == n'.rdepids;
    assert n.entries == n'.entries;
  }

  lemma InvEntered(c: Catalogue, seen: set<Fn>, n: Needs, s: State, f: Fn)
    requires Inv(c, seen, n, s, {f}) && f in c.recipes && f !in seen && IsListed(s, f)
    ensures Inv(c, seen + {f}, Entered(n, f, c.recipes[f]), s, {f})
  {
    EnteredIsNeeds(c, seen, f);
    assert seen + {f} - s.failed - {f} == seen - s.failed - {f};
  }

  lemma InvDone(c: Catalogue, seen: set<Fn>, n: Needs, s: State, f: Fn)
    requires Inv(c, seen, n, s, {f}) && f in seen && (f in s.failed || Met(c, s, f))
    ensures Inv(c, seen, n, s, {})
  {
    assert seen + {f} == seen + {};
  }

  // ---- settled targets ----

  /** A target that is listed nowhere as unresolved: it was removed, or it has a provider. */
  ghost predicate Settled(s: State, t: Target) {
    t in s.removed || (t in s.lists && s.lists[t] != [])
  }

  /**
   Settled targets stay settled, known targets stay known, failed and removed is for good, and only
   failed providers disappear.
   */
  ghost predicate Progressed(s: State, s': State) {
    && s.lists.Keys <= s'.lists.Keys && (forall t :: Settled(s, t) ==> Settled(s', t))
    && s.failed <= s'.failed && s.removed <= s'.removed
    && forall t, f :: t in s.lists && f in s.lists[t] ==> t in s'.lists && (f in s'.lists[t] || f in s'.failed)
  }

  lemma CascadeProgresses(n: Needs, s: State, s': State)
    requires Cascaded(n, s, s')
    ensures Progressed(s, s')
  {
    forall t | Settled(s, t) ensures Settled(s', t) {
      if t in s.lists && s.lists[t] != [] && s'.lists[t] == [] {
        assert t in Emptied(s.lists, s'.lists);
      }
    }
    forall t, f | t in s.lists && f in s.lists[t] ensures f in s'.lists[t] || f in s'.failed {
      WithoutElem(s.lists[t], s'.failed - s.failed, f);
    }
  }

  lemma RemovalProgresses(n: Needs, s: State, s': State, t: Target)
    requires Removed(n, s, s', t)
    ensures Progressed(s, s') && Settled(s', t) && s'.lists.Keys == s.lists.Keys
  {
    CascadeProgresses(n, s.(removed := s.removed + multiset{t}), s');
  }

  /** Targets of `universe` still to be settled: what each pass of `add_unresolved` uses up. */
  ghost function Open(c: Catalogue, universe: set<Target>, s: State): set<Target> {
    set t | t in universe && !c.ignored(t.name) && !Settled(s, t)
  }

  /** `get_unresolved_build_targets` and `get_unresolved_run_targets` together. */
  ghost function Unresolved(c: Catalogue, s: State): set<Target> {
    set t | t in s.lists && !c.ignored(t.name) && !Settled(s, t)
  }

  /**
   The surviving graph: everything an unfailed recipe wants is ignored or has a provider, and
   every listed provider is itself added and unfailed.
   */
  ghost predicate Complete(c: Catalogue, seen: set<Fn>, s: State)
    requires seen <= c.recipes.Keys
  {
    && (forall f, t :: f in seen - s.failed && t in Wants(c.recipes[f]) ==>
          c.ignored(t.name) || (t in s.lists && s.lists[t] != []))
    && (forall t, f :: t in s.lists && f in s.lists[t] ==> f in seen - s.failed)
  }

  lemma ResolvedIsComplete(c: Catalogue, seen: set<Fn>, n: Needs, s: State)
    requires Inv(c, seen, n, s, {}) && Unresolved(c, s) == {}
    ensures Complete(c, seen, s)
  {
    hide Sourced, Contained, ListsOk, NeedsOf, IsListed;
    forall f, t | f in seen - s.failed && t in Wants(c.recipes[f]) && !c.ignored(t.name)
      ensures t in s.lists && s.lists[t] != []
    {
      assert Met(c, s, f);
      assert t !in Unresolved(c, s);
    }
    forall t, f | t in s.lists && f in s.lists[t] ensures f in seen - s.failed {
      assert f in seen + {};
    }
  }

  /** A recipe that wants such a target is in the set. */
  ghost predicate StarvedClosed(c: Catalogue, fs: set<Fn>) {
    forall f, t :: f in c.recipes && t in Wants(c.recipes[f]) && Unfillable(c, fs, t) ==> f in fs
  }

  /** The recipe cannot be built: it is in every such set. */
  ghost predicate Starved(c: Catalogue, f: Fn) {
    forall fs :: StarvedClosed(c, fs) ==> f in fs
  }

  ghost function AllStarved(c: Catalogue): set<Fn> {
    set f | f in c.recipes && Starved(c, f)
  }

  lemma StarvedSetClosed(c: Catalogue)
    requires CatalogueOk(c)
    ensures StarvedClosed(c, AllStarved(c))
  {
    hide Wants, SourceList, Ambiguous;
    forall f, t | f in c.recipes && t in Wants(c.recipes[f]) && Unfillable(c, AllStarved(c), t) ensures Starved(c, f) {
      forall fs | StarvedClosed(c, fs) ensures f in fs {
        assert AllStarved(c) <= fs;
        assert Unfillable(c, fs, t);
      }
    }
  }

  /** Nobody can build the target: it is ambiguous, or all that may provide it cannot be built. */
  ghost predicate OutOfReach(c: Catalogue, t: Target) {
    !c.ignored(t.name) && (Ambiguous(c, t) || forall g :: g in Sources(c, t) ==> Starved(c, g))
  }

  /** A recipe cannot be built exactly if it wants such a target. */
  lemma StarvedIff(c: Catalogue, f: Fn)
    requires CatalogueOk(c) && f in c.recipes
    ensures Starved(c, f) <==> exists t :: t in Wants(c.recipes[f]) && OutOfReach(c, t)
  {
    hide Wants, Ambiguous;
    var all := AllStarved(c);
    StarvedSetClosed(c);
    forall t ensures Unfillable(c, all, t) <==> OutOfReach(c, t) { ReachIff(c, t); }
    if forall t :: t in Wants(c.recipes[f]) ==> !OutOfReach(c, t) {
      forall g, t | g in c.recipes && t in Wants(c.recipes[g]) && Unfillable(c, all - {f}, t) ensures g in all - {f} {
        assert Unfillable(c, all, t);
      }
      assert StarvedClosed(c, all - {f}) && f !in all - {f};
    }
    hide OutOfReach, Unfillable;
  }

  lemma ReachIff(c: Catalogue, t: Target)
    requires CatalogueOk(c)
    ensures Unfillable(c, AllStarved(c), t) <==> OutOfReach(c, t)
  {
    hide Starved;
    assert forall g :: g in Sources(c, t) ==> g in c.recipes;
  }

  /** Once everything is resolved, every recipe added that cannot be built has failed. */
  lemma StarvedHasFailed(c: Catalogue, seen: set<Fn>, s: State, f: Fn)
    requires seen <= c.recipes.Keys && Complete(c, seen, s) && Sourced(c, s) && f in seen && Starved(c, f)
    ensures f in s.failed
  {
    var fs := s.failed + (c.recipes.Keys - seen);
    forall g, t | g in c.recipes && t in Wants(c.recipes[g]) && Unfillable(c, fs, t) ensures g in fs {
      if g in seen - s.failed { SomeSourceSurvives(c, seen, s, g, t); }
    }
    assert StarvedClosed(c, fs);
  }

  /** What an unfailed recipe wants has an unfailed provider. */
  lemma SomeSourceSurvives(c: Catalogue, seen: set<Fn>, s: State, f: Fn, t: Target)
    requires seen <= c.recipes.Keys && Complete(c, seen, s) && Sourced(c, s)
    requires f in seen - s.failed && t in Wants(c.recipes[f])
    ensures !Unfillable(c, s.failed + (c.recipes.Keys - seen), t)
  {
    hide Wants, Sources, Ambiguous;
    if !c.ignored(t.name) {
      assert Provided(s.lists, t);
      var g := s.lists[t][0];
      assert g in s.lists[t] && g in Elems(s.lists[t]) && g in Sources(c, t) && g in seen - s.failed;
    }
  }

  // ---- adding a provider, one pass, and the measure ----

  /** The state after `add_build_target`/`add_runtime_target`. */
  function Listed(m: Providers, t: Target, f: Fn): Providers {
    m[t := if t !in m then [f] else if f in m[t] then m[t] else m[t] + [f]]
  }

  lemma SourcedListed(c: Catalogue, s: State, t: Target, f: Fn)
    requires Sourced(c, s) && f in Sources(c, t) && !c.ignored(t.name) && !Ambiguous(c, t)
    requires SourceList(c, t)[0] == f || Taken(s, t, SourceList(c, t)[0])
    ensures Sourced(c, s.(lists := Listed(s.lists, t, f)))
  {
    var m := Listed(s.lists, t, f);
    forall u | Provided(m, u) && u != t ensures Provided(s.lists, u) {}
  }

  lemma ListedMembers(m: Providers, t: Target, f: Fn)
    ensures var m' := Listed(m, t, f);
      && t in m' && f in m'[t]
      && (forall u, g :: u in m && g in m[u] ==> u in m' && g in m'[u])
      && forall u, g :: u in m' && g in m'[u] ==> g == f || (u in m && g in m[u])
  {
  }

  lemma ListedOk(m: Providers, t: Target, f: Fn)
    requires ListsOk(m)
    ensures ListsOk(Listed(m, t, f))
  {
  }

  lemma ListedProgresses(s: State, t: Target, f: Fn)
    ensures var s' := s.(lists := Listed(s.lists, t, f)); Progressed(s, s') && Settled(s', t)
  {
  }

  lemma InvListed(c: Catalogue, seen: set<Fn>, n: Needs, s: State, t: Target, f: Fn)
    requires Inv(c, seen, n, s, {}) && f !in s.failed && f in Sources(c, t) && !c.ignored(t.name) && !Ambiguous(c, t)
    requires SourceList(c, t)[0] == f || Taken(s, t, SourceList(c, t)[0])
    ensures Inv(c, seen, n, s.(lists := Listed(s.lists, t, f)), {f} - seen)
    ensures Progressed(s, s.(lists := Listed(s.lists, t, f)))
    ensures Settled(s.(lists := Listed(s.lists, t, f)), t) && IsListed(s.(lists := Listed(s.lists, t, f)), f)
  {
    var m := Listed(s.lists, t, f);
    SourcedListed(c, s, t, f);
    assert Contained(c, s.(lists := m));
    hide Sourced, Contained, NeedsOf, Wants, Sources;
    ListedMembers(s.lists, t, f);
    ListedOk(s.lists, t, f);
    ListedProgresses(s, t, f);
    ListedStill(s, m, seen);
    hide Listed, ListsOk, Progressed, Settled;
    forall g | g in seen - s.failed - ({f} - seen) ensures Met(c, s.(lists := m), g) {
      assert Met(c, s, g);
    }
    hide Met, IsListed;
    assert seen + {} == seen;
  }

  lemma ListedStill(s: State, m: Providers, seen: set<Fn>)
    requires forall f :: f in seen - s.failed ==> IsListed(s, f)
    requires forall u, g :: u in s.lists && g in s.lists[u] ==> u in m && g in m[u]
    ensures forall f :: f in seen - s.failed ==> IsListed(s.(lists := m), f)
  {
    forall f | f in seen - s.failed ensures IsListed(s.(lists := m), f) {
      assert IsListed(s, f);
      var u :| u in s.lists && f in s.lists[u];
      assert u in m && f in m[u];
    }
  }

  lemma ProgressedTwice(s: State, s1: State, s2: State)
    requires Progressed(s, s1) && Progressed(s1, s2)
    ensures Progressed(s, s2)
  {
  }

  lemma OpenShrinks(c: Catalogue, universe: set<Target>, s: State, s': State)
    requires Progressed(s, s')
    ensures Open(c, universe, s') <= Open(c, universe, s)
    ensures |Open(c, universe, s')| <= |Open(c, universe, s)|
    ensures forall t :: t in Open(c, universe, s) && Settled(s', t) ==>
      |Open(c, universe, s')| < |Open(c, universe, s)|
  {
    SmallerCard(Open(c, universe, s'), Open(c, universe, s));
    forall t | t in Open(c, universe, s) && Settled(s', t)
      ensures |Open(c, universe, s')| < |Open(c, universe, s)|
    {
      assert Open(c, universe, s') <= Open(c, universe, s) - {t};
      SmallerCard(Open(c, universe, s'), Open(c, universe, s) - {t});
    }
  }

  // ---- the two outermost failures ----

  /** The recipe being added fails because it names the removed target `t`. */
  lemma PendingFailed(c: Catalogue, seen: set<Fn>, n: Needs, s: State, s': State, fn: Fn, t: Target)
    requires Inv(c, seen, n, s, {fn}) && fn in seen && fn in c.recipes && t in Wants(c.recipes[fn]) && t in s.removed
    requires s' == AfterFailure(n, s, {fn}) && Cascaded(n, s, s')
    ensures Inv(c, seen, n, s', {}) && Progressed(s, s') && s'.lists.Keys == s.lists.Keys
  {
    hide Met, IsListed, Sourced, Wants, Clean, ListsOk, NeedsOf, Victims;
    NeedsKnowSeen(c, seen);
    EverythingIsClosed(s.lists, n, seen);
    LeastFailedIsLeast(s.lists, n, s.failed + {fn}, seen);
    forall doomed | Condemned(c, doomed) ensures {fn} <= doomed { assert Hopeless(c, doomed, t); }
    ContainedAfter(c, seen, s, {fn});
    hide Contained, Cascaded;
    InvCascade(c, seen, n, s, s', {fn});
    CascadeProgresses(n, s, s');
    SeedFails(n, s, {fn});
    InvDone(c, seen, n, s', fn);
  }

  lemma SeedFails(n: Needs, s: State, seed: set<Fn>)
    ensures seed <= AfterFailure(n, s, seed).failed
    ensures AfterFailure(n, s, seed).lists.Keys == s.lists.Keys
  {
    LeastFailedIsClosed(s.lists, n, s.failed + seed);
  }

  lemma UnprovidableIsHopeless(c: Catalogue, s: State, t: Target, doomed: set<Fn>)
    requires Unprovidable(c, s, t) && s.failed <= doomed
    ensures Hopeless(c, doomed, t)
  {
    if SourceList(c, t) != [] { assert SourceList(c, t)[0] in Sources(c, t); }
  }

  /** A target that nothing can provide is removed. */
  lemma TargetFailed(c: Catalogue, seen: set<Fn>, n: Needs, s: State, s': State, t: Target)
    requires Inv(c, seen, n, s, {}) && Unprovidable(c, s, t) && Removed(n, s, s', t)
    requires s' == AfterFailure(n, s.(removed := s.removed + multiset{t}), Victims(n, t))
    ensures Inv(c, seen, n, s', {}) && Progressed(s, s') && Settled(s', t) && s'.lists.Keys == s.lists.Keys
  {
    hide Met, IsListed, Wants, Clean, ListsOk, NeedsOf, Victims, Sources, Settled, Progressed;
    var s1 := s.(removed := s.removed + multiset{t});
    NeedsKnowSeen(c, seen);
    VictimsAreKnown(n, t);
    EverythingIsClosed(s.lists, n, seen);
    LeastFailedIsLeast(s.lists, n, s.failed + Victims(n, t), seen);
    forall doomed | Condemned(c, doomed) ensures Victims(n, t) <= doomed && Hopeless(c, doomed, t) {
      UnprovidableIsHopeless(c, s, t, doomed);
      HopelessVictims(c, seen, t, doomed);
    }
    assert Sourced(c, s1) && Contained(c, s1) by { assert s1.lists == s.lists && s1.failed == s.failed; }
    ContainedAfter(c, seen, s1, Victims(n, t));
    hide Contained, Sourced, Removed;
    InvRemoved(c, seen, n, s, s', t);
    RemovalProgresses(n, s, s', t);
  }

  // ---- when a recipe that is being added fails ----

  /** The recipe names a target that has been removed. */
  ghost predicate NamesRemoved(c: Catalogue, s: State, fn: Fn) {
    fn in c.recipes && exists t :: t in Wants(c.recipes[fn]) && t in s.removed
  }

  /** A recipe not added before that names a target removed already. */
  ghost predicate Blocked(c: Catalogue, seen: set<Fn>, s: State, fn: Fn) {
    fn !in seen && NamesRemoved(c, s, fn)
  }

  /** Of the files that may provide `t`, the first that has not failed is blocked. */
  ghost predicate FirstIsBlocked(c: Catalogue, seen: set<Fn>, s: State, t: Target) {
    var eligible := Without(SourceList(c, t), s.failed);
    eligible != [] && Blocked(c, seen, s, eligible[0])
  }

  /** Adding providers for `t` has removed it exactly if the first of them is blocked. */
  ghost predicate RemovedIffBlocked(c: Catalogue, seen: set<Fn>, s: State, s': State, t: Target) {
    t in s'.removed <==> t in s.removed || FirstIsBlocked(c, seen, s, t)
  }

  /**
   What `add_tasks` does to the state: some targets become known, and if the recipe is blocked,
   its failure takes its course; nothing else fails or is removed.
   */
  ghost predicate Added(c: Catalogue, n: Needs, s: State, s': State, fn: Fn, blocked: bool) {
    exists m :: Extends(s.lists, m, AllTargets(c)) &&
      s' == if blocked then AfterFailure(n, s.(lists := m), {fn}) else s.(lists := m)
  }

  lemma ExtendsTwice(m: Providers, m1: Providers, m2: Providers, u: set<Target>, v: set<Target>)
    requires Extends(m, m1, u) && Extends(m1, m2, v)
    ensures Extends(m, m2, u + v)
  {
  }

  lemma ExtendsMore(m: Providers, m': Providers, u: set<Target>, v: set<Target>)
    requires Extends(m, m', u) && u <= v
    ensures Extends(m, m', v)
  {
  }

  /** Halfway through the targets that a recipe names: those looked at are known and not removed. */
  ghost predicate Looking(c: Catalogue, s: State, now: State, wants: set<Target>, todo: set<Target>) {
    && now == s.(lists := now.lists) && Extends(s.lists, now.lists, AllTargets(c))
    && forall t :: t in wants - todo ==> t in now.lists && t !in s.removed
  }

  lemma LookingStarts(c: Catalogue, s: State, wants: set<Target>)
    ensures Looking(c, s, s, wants, wants)
  {
  }

  lemma LookingStep(c: Catalogue, s: State, here: State, now: State, wants: set<Target>, todo: set<Target>, t: Target)
    requires Looking(c, s, here, wants, todo) && t in wants && wants <= AllTargets(c)
    requires Extends(here.lists, now.lists, {t}) && t in now.lists && now == here.(lists := now.lists)
    ensures Looking(c, s, now, wants, todo)
    ensures t !in s.removed ==> Looking(c, s, now, wants, todo - {t})
  {
  }

  lemma LookingKeeps(c: Catalogue, s: State, now: State, wants: set<Target>, todo: set<Target>)
    requires Looking(c, s, now, wants, todo)
    ensures now.removed == s.removed && now.lists.Keys <= s.lists.Keys + AllTargets(c)
  {
  }

  /** The recipe has been failed for a removed target that it names. */
  lemma LookingBlocked(c: Catalogue, n: Needs, s: State, here: State, now: State, fn: Fn, todo: set<Target>, t: Target)
    requires fn in c.recipes && t in Wants(c.recipes[fn]) && t in s.removed
    requires Looking(c, s, here, Wants(c.recipes[fn]), todo) && now == AfterFailure(n, here, {fn})
    ensures Added(c, n, s, now, fn, NamesRemoved(c, s, fn))
  {
    assert here == s.(lists := here.lists);
  }

  lemma LookingDone(c: Catalogue, n: Needs, s: State, now: State, fn: Fn)
    requires fn in c.recipes && Looking(c, s, now, Wants(c.recipes[fn]), {})
    ensures Added(c, n, s, now, fn, NamesRemoved(c, s, fn)) && Met(c, now, fn)
  {
    assert now == s.(lists := now.lists);
  }

  lemma AddedNothing(c: Catalogue, n: Needs, s: State, fn: Fn)
    ensures Added(c, n, s, s, fn, false)
  {
    assert s.(lists := s.lists) == s && Extends(s.lists, s.lists, AllTargets(c));
  }

  lemma AddedTwice(c: Catalogue, n: Needs, s: State, s1: State, s2: State, fn: Fn, blocked: bool)
    requires Extends(s.lists, s1.lists, AllTargets(c)) && s1.failed == s.failed && s1.removed == s.removed
    requires Added(c, n, s1, s2, fn, blocked)
    ensures Added(c, n, s, s2, fn, blocked)
  {
    var m :| Extends(s1.lists, m, AllTargets(c)) &&
      s2 == if blocked then AfterFailure(n, s1.(lists := m), {fn}) else s1.(lists := m);
    ExtendsTwice(s.lists, s1.lists, m, AllTargets(c), AllTargets(c));
    assert Extends(s.lists, m, AllTargets(c));
  }

  lemma AddedFails(c: Catalogue, n: Needs, s: State, s': State, fn: Fn, blocked: bool)
    requires Added(c, n, s, s', fn, blocked)
    ensures blocked ==> fn in s'.failed
    ensures !blocked ==> s'.failed == s.failed && s'.removed == s.removed
  {
    var m :| Extends(s.lists, m, AllTargets(c)) &&
      s' == if blocked then AfterFailure(n, s.(lists := m), {fn}) else s.(lists := m);
    if blocked { SeedFails(n, s.(lists := m), {fn}); }
  }

  /** Every list has a member that neither has failed nor is `fn`. */
  ghost predicate Others(m: Providers, failed: set<Fn>, fn: Fn) {
    forall t :: Provided(m, t) ==> exists g :: g in m[t] && g != fn && g !in failed
  }

  /** A failing recipe that is nowhere the only provider fails alone, and nothing is removed. */
  lemma FailsAlone(n: Needs, s: State, fn: Fn)
    requires Others(s.lists, s.failed, fn) && fn !in s.failed
    ensures var s' := AfterFailure(n, s, {fn});
      s'.failed == s.failed + {fn} && s'.removed == s.removed && forall t :: Provided(s.lists, t) ==> Provided(s'.lists, t)
  {
    var s' := AfterFailure(n, s, {fn});
    LeastFailedIsClosed(s.lists, n, s.failed + {fn});
    forall t | t in s.lists && s.lists[t] != [] ensures !(Elems(s.lists[t]) <= s.failed + {fn}) {
      assert Provided(s.lists, t);
      var g :| g in s.lists[t] && g != fn && g !in s.failed;
      assert g in Elems(s.lists[t]);
    }
    LeastFailedIsLeast(s.lists, n, s.failed + {fn}, s.failed + {fn});
    assert s'.failed - s.failed == {fn};
    forall t | Provided(s.lists, t) ensures Provided(s'.lists, t) {
      var g :| g in s.lists[t] && g != fn && g !in s.failed;
      WithoutElem(s.lists[t], {fn}, g);
    }
    forall t ensures t !in Emptied(s.lists, s'.lists) {
      if t in s.lists && s.lists[t] != [] { assert Provided(s.lists, t) && Provided(s'.lists, t); }
    }
    assert Emptied(s.lists, s'.lists) == {};
  }

  lemma OthersListed(c: Catalogue, seen: set<Fn>, n: Needs, s: State, m: Providers, t: Target, fn: Fn)
    requires Inv(c, seen, n, s, {}) && fn !in seen && Provided(s.lists, t)
    requires Extends(Listed(s.lists, t, fn), m, AllTargets(c))
    ensures Others(m, s.failed, fn) && Provided(m, t)
  {
    hide Sourced, Contained, Met, IsListed, NeedsOf;
    forall u | Provided(m, u) ensures exists g :: g in m[u] && g != fn && g !in s.failed {
      var g := s.lists[u][0];
      assert g in s.lists[u] && g in seen + {} && g in m[u];
    }
  }

  /**
   Adding `fn` for `t` and then its tasks. If `t` has another provider, nothing is removed; if not,
   it is removed exactly if `fn` is blocked, and else it has a provider now.
   */
  lemma AddedFor(c: Catalogue, seen: set<Fn>, n: Needs, n': Needs, s: State, s': State, t: Target, fn: Fn, blocked: bool)
    requires Inv(c, seen, n, s, {}) && fn !in s.failed && (blocked ==> fn !in seen)
    requires Added(c, n', s.(lists := Listed(s.lists, t, fn)), s', fn, blocked)
    ensures Provided(s.lists, t) || !blocked ==> s'.removed == s.removed && Provided(s'.lists, t)
    ensures !Provided(s.lists, t) && blocked ==> t in s'.removed
  {
    var s1 := s.(lists := Listed(s.lists, t, fn));
    var m :| Extends(s1.lists, m, AllTargets(c)) &&
      s' == if blocked then AfterFailure(n', s1.(lists := m), {fn}) else s1.(lists := m);
    if blocked && Provided(s.lists, t) {
      OthersListed(c, seen, n, s, m, t, fn);
      FailsAlone(n', s1.(lists := m), fn);
    } else if blocked {
      hide Inv;
      assert m[t] == [fn];
      LastFails(n', s1.(lists := m), t, fn);
    }
  }

  lemma LastFails(n: Needs, s: State, t: Target, fn: Fn)
    requires t in s.lists && s.lists[t] == [fn] && fn !in s.failed
    ensures t in AfterFailure(n, s, {fn}).removed
  {
    SeedFails(n, s, {fn});
    var s' := AfterFailure(n, s, {fn});
    WithoutElem([fn], s'.failed - s.failed, fn);
    assert Without([fn], s'.failed - s.failed) == [];
    assert t in Emptied(s.lists, s'.lists);
  }

  // ---- the order of the providers ----

  /** Where `f` is first in the list, or the length of the list. */
  function At(list: seq<Fn>, f: Fn): (i: nat)
    ensures i <= |list| && (f in list ==> i < |list| && list[i] == f)
  {
    if list == [] || list[0] == f then 0 else At(list[1..], f) + 1
  }

  ghost predicate Rising(sources: seq<Fn>, list: seq<Fn>) {
    forall i, j :: 0 <= i < j < |list| ==> At(sources, list[i]) < At(sources, list[j])
  }

  /** The files listed are in the order of the selection, and none is listed before its turn. */
  ghost predicate Turn(sources: seq<Fn>, list: seq<Fn>, failed: set<Fn>) {
    && Rising(sources, list) && (forall f :: f in list ==> f in sources)
    && forall f, g :: f in list && g in sources && At(sources, g) < At(sources, f) ==> g in list || g in failed
  }

  ghost predicate InTurn(c: Catalogue, s: State) {
    forall t :: t in s.lists ==> Turn(SourceList(c, t), s.lists[t], s.failed)
  }

  lemma {:induction false} RisingWithout(sources: seq<Fn>, list: seq<Fn>, d: set<Fn>)
    requires Rising(sources, list)
    ensures Rising(sources, Without(list, d))
  {
    if list != [] {
      var rest := Without(list[1..], d);
      RisingWithout(sources, list[1..], d);
      forall j | 0 <= j < |rest| ensures At(sources, list[0]) < At(sources, rest[j]) {
        WithoutElem(list[1..], d, rest[j]);
        var i :| 0 <= i < |list[1..]| && list[1..][i] == rest[j];
        assert list[i + 1] == rest[j];
      }
    }
  }

  lemma TurnWithout(sources: seq<Fn>, list: seq<Fn>, failed: set<Fn>, failed': set<Fn>)
    requires Turn(sources, list, failed) && failed <= failed'
    ensures Turn(sources, Without(list, failed' - failed), failed')
  {
    RisingWithout(sources, list, failed' - failed);
    forall f ensures f in Without(list, failed' - failed) <==> f in list && f !in failed' - failed {
      WithoutElem(list, failed' - failed, f);
    }
    hide Rising;
  }

  /** Lists that lose nothing but failed files, and new empty ones, stay in turn. */
  lemma TurnKept(c: Catalogue, s: State, s': State)
    requires InTurn(c, s) && s.failed <= s'.failed
    requires forall t :: t in s'.lists ==>
      s'.lists[t] == [] || (t in s.lists && s'.lists[t] == Without(s.lists[t], s'.failed - s.failed))
    ensures InTurn(c, s')
  {
    forall t | t in s'.lists ensures Turn(SourceList(c, t), s'.lists[t], s'.failed) {
      if s'.lists[t] != [] { TurnWithout(SourceList(c, t), s.lists[t], s.failed, s'.failed); }
    }
  }

  lemma TurnFails(c: Catalogue, n: Needs, s: State, seed: set<Fn>)
    requires InTurn(c, s)
    ensures InTurn(c, AfterFailure(n, s, seed))
  {
    LeastFailedIsClosed(s.lists, n, s.failed + seed);
    TurnKept(c, s, AfterFailure(n, s, seed));
  }

  lemma TurnExtends(c: Catalogue, s: State, m: Providers, u: set<Target>)
    requires InTurn(c, s) && Extends(s.lists, m, u)
    ensures InTurn(c, s.(lists := m))
  {
    forall t | t in s.lists ensures Without(s.lists[t], s.failed - s.failed) == s.lists[t] {
      WithoutAbsent(s.lists[t], s.failed - s.failed);
    }
    TurnKept(c, s, s.(lists := m));
  }

  /** It is the turn of `f` to be listed for `t`, if it is not there yet. */
  ghost predicate NextTurn(c: Catalogue, s: State, t: Target, f: Fn) {
    var sources := SourceList(c, t);
    && f in sources
    && (|| (t in s.lists && f in s.lists[t])
        || ((t in s.lists ==> forall g :: g in s.lists[t] ==> At(sources, g) < At(sources, f)) &&
            forall g :: g in sources && At(sources, g) < At(sources, f) ==> Taken(s, t, g)))
  }

  lemma TurnListed(c: Catalogue, s: State, t: Target, f: Fn)
    requires InTurn(c, s) && NextTurn(c, s, t, f)
    ensures InTurn(c, s.(lists := Listed(s.lists, t, f)))
  {
    hide Turn, SourceList;
    var m, sources := Listed(s.lists, t, f), SourceList(c, t);
    if !(t in s.lists && f in s.lists[t]) {
      var before := if t in s.lists then s.lists[t] else [];
      assert m[t] == before + [f];
      if t !in s.lists { NothingListed(sources, s.failed); }
      TurnSnoc(sources, before, s.failed, f);
    }
  }

  lemma NothingListed(sources: seq<Fn>, failed: set<Fn>)
    ensures Turn(sources, [], failed)
  {
  }

  lemma TurnSnoc(sources: seq<Fn>, list: seq<Fn>, failed: set<Fn>, f: Fn)
    requires Turn(sources, list, failed) && f in sources
    requires forall g :: g in list ==> At(sources, g) < At(sources, f)
    requires forall g :: g in sources && At(sources, g) < At(sources, f) ==> g in list || g in failed
    ensures Turn(sources, list + [f], failed)
  {
    hide At;
    assert forall i :: 0 <= i < |list| ==> list[i] in list;
    assert Rising(sources, list + [f]);
    hide Rising;
  }

  /** A file added for a target, whatever its tasks bring about: the lists stay in turn, and no other file is listed. */
  lemma TurnAdded(c: Catalogue, n: Needs, s: State, s': State, t: Target, fn: Fn, blocked: bool)
    requires InTurn(c, s) && NextTurn(c, s, t, fn) && Added(c, n, s.(lists := Listed(s.lists, t, fn)), s', fn, blocked)
    ensures InTurn(c, s') && t in s'.lists
    ensures forall f :: f in s'.lists[t] ==> f == fn || (t in s.lists && f in s.lists[t])
  {
    var s1 := s.(lists := Listed(s.lists, t, fn));
    TurnListed(c, s, t, fn);
    var m :| Extends(s1.lists, m, AllTargets(c)) &&
      s' == if blocked then AfterFailure(n, s1.(lists := m), {fn}) else s1.(lists := m);
    TurnExtends(c, s1, m, AllTargets(c));
    ListedMembers(s.lists, t, fn);
    hide InTurn, Listed;
    assert m[t] == s1.lists[t];
    if blocked {
      TurnFails(c, n, s1.(lists := m), {fn});
      forall f | f in s'.lists[t] ensures f in m[t] { WithoutElem(m[t], s'.failed - s1.failed, f); }
    }
  }

  lemma {:induction false} AtMost(list: seq<Fn>, k: nat)
    requires k < |list|
    ensures At(list, list[k]) <= k
  {
    if k > 0 { AtMost(list[1..], k - 1); }
  }

  /** Taking files out keeps the others in order. */
  lemma {:induction false} AtWithout(s: seq<Fn>, d: set<Fn>, g: Fn, h: Fn)
    requires g in s && h in s && g !in d && h !in d
    ensures At(s, g) < At(s, h) <==> At(Without(s, d), g) < At(Without(s, d), h)
  {
    var x, rest := s[0], s[1..];
    assert s == [x] + rest;
    AtCons(x, rest, g);
    AtCons(x, rest, h);
    AtCons(x, Without(rest, d), g);
    AtCons(x, Without(rest, d), h);
    hide At;
    if g != x && h != x { AtWithout(rest, d, g, h); }
    assert Without(s, d) == if x in d then Without(rest, d) else [x] + Without(rest, d);
  }

  lemma AtCons(x: Fn, rest: seq<Fn>, f: Fn)
    ensures At([x] + rest, f) == if f == x then 0 else At(rest, f) + 1
  {
    assert ([x] + rest)[1..] == rest;
  }

  /** What is before a file among those that are left. */
  lemma WithoutAt(s: seq<Fn>, d: set<Fn>, i: nat)
    requires i < |Without(s, d)| && Without(s, d)[i] !in Without(s, d)[..i]
    ensures var w := Without(s, d);
      && (forall k :: 0 <= k < i ==> At(s, w[k]) < At(s, w[i]))
      && forall g :: g in s && g !in d && At(s, g) < At(s, w[i]) ==> g in w[..i]
  {
    var w := Without(s, d);
    WithoutElem(s, d, w[i]);
    AtMost(w, i);
    hide Without;
    assert At(w, w[i]) == i by { forall k | 0 <= k < i ensures w[k] != w[i] { assert w[k] == w[..i][k]; } }
    forall k | 0 <= k < i ensures At(s, w[k]) < At(s, w[i]) {
      WithoutElem(s, d, w[k]);
      AtMost(w, k);
      AtWithout(s, d, w[k], w[i]);
    }
    forall g | g in s && g !in d && At(s, g) < At(s, w[i]) ensures g in w[..i] {
      WithoutElem(s, d, g);
      AtWithout(s, d, g, w[i]);
      assert w[..i][At(w, g)] == g;
    }
  }

  /** The file that is being added is next in turn: those before it have failed or are listed. */
  lemma EligibleInTurn(c: Catalogue, s: State, now: State, t: Target, eligible: seq<Fn>, i: nat)
    requires eligible == Without(SourceList(c, t), s.failed) && i < |eligible| && s.failed <= now.failed
    requires forall k :: 0 <= k < i ==> Taken(now, t, eligible[k])
    requires t in now.lists ==> forall f :: f in now.lists[t] ==> f in eligible[..i]
    requires eligible[i] !in now.failed
    ensures NextTurn(c, now, t, eligible[i])
  {
    var sources, fn := SourceList(c, t), eligible[i];
    WithoutElem(sources, s.failed, fn);
    if !(t in now.lists && fn in now.lists[t]) {
      forall k | 0 <= k < i ensures eligible[k] != fn { assert Taken(now, t, eligible[k]); }
      WithoutAt(sources, s.failed, i);
      forall g | g in sources && At(sources, g) < At(sources, fn) ensures Taken(now, t, g) {
        if g !in s.failed { var k :| 0 <= k < i && eligible[..i][k] == g; assert eligible[k] == g; }
      }
      if t in now.lists {
        forall g | g in now.lists[t] ensures At(sources, g) < At(sources, fn) {
          var k :| 0 <= k < i && eligible[..i][k] == g;
          assert eligible[k] == g;
        }
      }
    }
  }

  lemma TurnRemoved(c: Catalogue, n: Needs, s: State, t: Target)
    requires InTurn(c, s)
    ensures InTurn(c, AfterFailure(n, s.(removed := s.removed + multiset{t}), Victims(n, t)))
  {
    hide AfterFailure;
    assert InTurn(c, s.(removed := s.removed + multiset{t}));
    hide InTurn;
    TurnFails(c, n, s.(removed := s.removed + multiset{t}), Victims(n, t));
  }

  /** The provider listed first for `t` is the first of the selection that has not failed. */
  ghost predicate FirstChoice(c: Catalogue, s: State, t: Target) {
    var left := Without(SourceList(c, t), s.failed);
    Provided(s.lists, t) && left != [] && s.lists[t][0] == left[0]
  }

  lemma FirstIsPreferred(c: Catalogue, s: State, t: Target)
    requires InTurn(c, s) && Clean(s) && Provided(s.lists, t)
    ensures FirstChoice(c, s, t)
  {
    var sources, list := SourceList(c, t), s.lists[t];
    var f, w := list[0], Without(sources, s.failed);
    assert f in list && Turn(sources, list, s.failed);
    WithoutElem(sources, s.failed, f);
    WithoutElem(sources, s.failed, w[0]);
    WithoutAt(sources, s.failed, 0);
    forall j | 0 <= j < |list| ensures At(sources, f) <= At(sources, list[j]) {}
    assert At(sources, w[0]) == At(sources, f);
  }
}

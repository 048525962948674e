/** bitbake/lib/bb/taskdata.py: `TaskData`, run with `halt` and `allowincomplete` off. */
module TaskDatabase {
  import opened Lists
  import opened Cascade
  import opened Resolution

  class TaskData {
    /** `build_targets` and `run_targets`, one dictionary keyed by namespace and name. */
    var targets: Providers
    /** `failed_deps` and `failed_rdeps`. */
    var failedTargets: seq<Target>
    var failedFns: seq<Fn>
    var seenFns: seq<Fn>
    var needs: Needs
    var externalTargets: seq<Name>

    constructor ()
      ensures forall c :: CatalogueOk(c) ==> Ready(c)
      ensures targets == map[] && failedFns == [] && failedTargets == [] && seenFns == []
    {
      targets, failedTargets, failedFns := map[], [], [];
      seenFns, needs, externalTargets := [], Needs(map[], map[], map[]), [];
    }

    ghost function Now(): State
      reads this
    {
      State(targets, Elems(failedFns), multiset(failedTargets))
    }

    // ---- the cascade ----

    /** Mark a recipe as failed and take it out of every provider list. */
    method FailFn(fn: Fn, ghost bound: set<Fn>)
      requires ListsOk(targets) && Closed(targets, needs, bound)
      requires Now().failed + {fn} <= bound
      modifies `targets, `failedFns, `failedTargets
      ensures Cascaded(needs, old(Now()), Now())
      ensures fn in failedFns && Now().failed <= bound
      decreases |AllFns(needs) + {fn} - Now().failed|, 0
    {
      ghost var s := Now();
      if fn in failedFns {
        CascadedNothing(needs, s);
        return;
      }
      failedFns := failedFns + [fn];
      assert Now() == s.(failed := s.failed + {fn});
      SweepStarts(needs, s, fn);
      var todo := targets.Keys;
      while todo != {}
        invariant Sweeping(needs, s, Now(), fn, todo) && Now().failed <= bound
        decreases todo
      {
        var target :| target in todo;
        ghost var here := Now();
        if fn in targets[target] {
          targets := targets[target := RemoveFirst(targets[target], fn)];
          assert Now() == Dropped(here, target, fn);
          if targets[target] == [] {
            SweepStep(needs, s, here, fn, todo, target, bound);
            RemoveTarget(target, bound);
            SweepRemoves(needs, s, here, Now(), fn, todo, target);
          } else {
            SweepDrops(needs, s, here, fn, todo, target);
          }
        } else {
          SweepSkips(needs, s, here, fn, todo, target);
        }
        todo := todo - {target};
      }
      SweepEnds(needs, s, Now(), fn);
    }

    /** The loops that fail the dependees of a target, one after the other. */
    method FailEach(fns: set<Fn>, ghost bound: set<Fn>)
      requires ListsOk(targets) && Closed(targets, needs, bound)
      requires Now().failed + fns <= bound && fns <= AllFns(needs)
      modifies `targets, `failedFns, `failedTargets
      ensures Cascaded(needs, old(Now()), Now())
      ensures fns <= Now().failed <= bound
      decreases |AllFns(needs) - Now().failed|, 1
    {
      ghost var s := Now();
      CascadedNothing(needs, s);
      var todo := fns;
      while todo != {}
        invariant todo <= fns && Now().failed <= bound
        invariant forall f :: f in fns ==> f in todo || f in Now().failed
        invariant Cascaded(needs, s, Now())
        decreases todo
      {
        var fn :| fn in todo;
        ghost var here := Now();
        FailEachStep(needs, s, here, fn, bound);
        FailFn(fn, bound);
        CascadedTwice(needs, s, here, Now());
        todo := todo - {fn};
      }
    }

    /** `remove_buildtarget` and `remove_runtarget`: fail every recipe that depends on the target. */
    method RemoveTarget(target: Target, ghost bound: set<Fn>)
      requires ListsOk(targets) && Closed(targets, needs, bound)
      requires Now().failed + Victims(needs, target) <= bound
      modifies `targets, `failedFns, `failedTargets
      ensures Removed(needs, old(Now()), Now(), target)
      ensures Now().failed <= bound
      decreases |AllFns(needs) - Now().failed|, 2
    {
      failedTargets := failedTargets + [target];
      ghost var s := Now();
      VictimsAreKnown(needs, target);
      FailEach(Dependees(needs, target), bound);
      ghost var s1 := Now();
      CascadeStep(needs, s, s1, bound);
      FailEach(TaskDependees(needs, target), bound);
      CascadedTwice(needs, s, s1, Now());
    }

    /**
     An outermost failure, started while no failed recipe is listed: the recipes that fail are
     exactly the least closed set, and the whole new state is a function of the old one.
     */
    method FailRecipe(fn: Fn)
      requires ListsOk(targets) && Clean(Now())
      modifies `targets, `failedFns, `failedTargets
      ensures Now() == AfterFailure(needs, old(Now()), {fn})
      ensures Clean(Now()) && Cascaded(needs, old(Now()), Now())
    {
      ghost var s := Now();
      ghost var least := LeastFailed(targets, needs, s.failed + {fn});
      LeastFailedIsClosed(targets, needs, s.failed + {fn});
      FailFn(fn, least);
      CascadeIsLeast(needs, s, Now(), {fn});
    }

    /** An outermost removal of a target without buildable providers. */
    method FailTarget(target: Target)
      requires ListsOk(targets) && Clean(Now())
      modifies `targets, `failedFns, `failedTargets
      ensures var s := old(Now());
        Now() == AfterFailure(needs, s.(removed := s.removed + multiset{target}), Victims(needs, target))
      ensures Clean(Now()) && Removed(needs, old(Now()), Now(), target)
    {
      ghost var s := Now();
      ghost var least := LeastFailed(targets, needs, s.failed + Victims(needs, target));
      LeastFailedIsClosed(targets, needs, s.failed + Victims(needs, target));
      RemoveTarget(target, least);
      CascadeIsLeast(needs, s.(removed := s.removed + multiset{target}), Now(), Victims(needs, target));
    }

    // ---- resolution ----

    ghost function Seen(): set<Fn>
      reads this
    {
      Elems(seenFns)
    }

    /** The tables are those of the recipes added, and all targets that these name are known. */
    ghost predicate Sane(c: Catalogue)
      reads this
    {
      CatalogueOk(c) && Inv(c, Seen(), needs, Now(), {}) && Touched(c, Seen(), targets)
    }

    /** And the providers are listed in the order of the selection. */
    ghost predicate Ready(c: Catalogue)
      reads this
    {
      Sane(c) && InTurn(c, Now())
    }

    /** `seen_build_target` and `seen_run_target`. */
    method SeenTarget(t: Target)
      modifies `targets
      ensures Extends(old(targets), targets, {t}) && t in targets
    {
      if t !in targets {
        targets := targets[t := []];
      }
    }

    /** `seen` on the targets one task names: afterwards all of them are known. */
    method SeenEntry(entry: TaskEntry)
      modifies `targets
      ensures Extends(old(targets), targets, Touches(entry)) && Touches(entry) <= targets.Keys
    {
      for i := 0 to |entry.idepends|
        invariant Extends(old(targets), targets, Touches(entry))
        invariant forall j :: 0 <= j < i ==> Build(entry.idepends[j].0) in targets
      {
        assert Build(entry.idepends[i].0) in Touches(entry);
        SeenTarget(Build(entry.idepends[i].0));
      }
      for i := 0 to |entry.irdepends|
        invariant Extends(old(targets), targets, Touches(entry))
        invariant forall j :: 0 <= j < |entry.idepends| ==> Build(entry.idepends[j].0) in targets
        invariant forall j :: 0 <= j < i ==> Run(entry.irdepends[j].0) in targets
      {
        assert Run(entry.irdepends[i].0) in Touches(entry);
        SeenTarget(Run(entry.irdepends[i].0));
      }
    }

    /** The loop of `add_tasks` over the recipe's tasks. */
    method AddTaskEntries(fn: Fn, tasks: map<Task, TaskEntry>)
      modifies `targets, `needs
      ensures Extends(old(targets), targets, TouchesAll(tasks)) && TouchesAll(tasks) <= targets.Keys
      ensures needs == old(needs).(entries := old(needs).entries[fn := tasks])
    {
      var todo := tasks.Keys;
      var entries: map<Task, TaskEntry> := map[];
      while todo != {}
        invariant todo <= tasks.Keys && needs == old(needs)
        invariant Extends(old(targets), targets, TouchesAll(tasks))
        invariant entries == map k | k in tasks && k !in todo :: tasks[k]
        invariant forall k :: k in tasks && k !in todo ==> Touches(tasks[k]) <= targets.Keys
        decreases todo
      {
        var task :| task in todo;
        entries := entries[task := tasks[task]];
        SeenEntry(tasks[task]);
        TouchesOne(tasks, task);
        todo := todo - {task};
      }
      assert entries == tasks && forall k :: k in tasks ==> Touches(tasks[k]) <= targets.Keys;
      needs := needs.(entries := needs.entries[fn := entries]);
    }

    /** Add one recipe to the tables; it fails at once if it needs a target removed before. */
    method AddTasks(c: Catalogue, fn: Fn)
      requires CatalogueOk(c) && fn in c.recipes && fn !in failedFns
      requires Inv(c, Seen(), needs, Now(), {fn} - Seen()) && IsListed(Now(), fn) && Touched(c, Seen(), targets)
      modifies `targets, `failedFns, `failedTargets, `seenFns, `needs
      ensures Sane(c) && Seen() == old(Seen()) + {fn}
      ensures Progressed(old(Now()), Now()) && targets.Keys <= old(targets.Keys) + AllTargets(c)
      ensures fn in failedFns <==> Blocked(c, old(Seen()), old(Now()), fn)
      ensures Added(c, needs, old(Now()), Now(), fn, Blocked(c, old(Seen()), old(Now()), fn))
    {
      hide Inv, Progressed, NamesRemoved, AfterFailure, AllTargets, Added, IsListed, Touched;
      ProgressedNot(Now());
      if fn in seenFns {
        assert {fn} - Seen() == {} && Seen() == Seen() + {fn} && fn in Seen();
        AddedNothing(c, needs, Now(), fn);
        return;
      }
      assert {fn} - Seen() == {fn};
      ghost var s := Now();
      EnterRecipe(c, fn);
      ghost var s1 := Now();
      AddDependencies(c, fn);
      ProgressedTwice(s, s1, Now());
      SameRemoved(c, s, s1, fn);
      AddedTwice(c, needs, s, s1, Now(), fn, NamesRemoved(c, s, fn));
      AddedFails(c, needs, s, Now(), fn, NamesRemoved(c, s, fn));
      assert fn in failedFns <==> fn in Now().failed;
      assert fn !in old(Seen()) && fn !in s.failed;
    }

    method EnterRecipe(c: Catalogue, fn: Fn)
      requires CatalogueOk(c) && fn in c.recipes && fn !in seenFns
      requires Inv(c, Seen(), needs, Now(), {fn}) && IsListed(Now(), fn) && Touched(c, Seen(), targets)
      modifies `targets, `seenFns, `needs
      ensures Inv(c, Seen(), needs, Now(), {fn}) && Seen() == old(Seen()) + {fn} && Touched(c, Seen(), targets)
      ensures Progressed(old(Now()), Now()) && Extends(old(targets), targets, AllTargets(c))
    {
      hide Inv, Progressed, Extends, Wants, TouchesAll, AllTargets, IsListed, Touched;
      ghost var s, before := Now(), Seen();
      InvEntered(c, Seen(), needs, s, fn);
      RecipeTargets(c, fn);
      seenFns := seenFns + [fn];
      assert Seen() == old(Seen()) + {fn};
      var r := c.recipes[fn];
      AddTaskEntries(fn, r.tasks);
      needs := needs.(depids := needs.depids[fn := r.deps], rdepids := needs.rdepids[fn := r.rdeps]);
      InvExtends(c, Seen(), needs, s, targets, TouchesAll(r.tasks), {fn});
      ExtendsMore(s.lists, targets, TouchesAll(r.tasks), AllTargets(c));
      assert s.lists.Keys <= targets.Keys by { ExtendsKeys(s.lists, targets, TouchesAll(r.tasks)); }
      TouchedStays(c, before, s.lists, targets);
      OneTouched(c, before, fn, targets);
    }

    /** The two loops that end `add_tasks`, over DEPENDS and RDEPENDS. */
    method AddDependencies(c: Catalogue, fn: Fn)
      requires CatalogueOk(c) && fn in seenFns && fn !in failedFns
      requires Inv(c, Seen(), needs, Now(), {fn}) && Touched(c, Seen(), targets)
      modifies `targets, `failedFns, `failedTargets
      ensures Sane(c)
      ensures Progressed(old(Now()), Now()) && targets.Keys <= old(targets.Keys) + AllTargets(c)
      ensures fn in c.recipes && Added(c, needs, old(Now()), Now(), fn, NamesRemoved(c, old(Now()), fn))
    {
      assert fn in c.recipes;
      RecipeTargets(c, fn);
      hide Inv, Progressed, AfterFailure, Wants, AllTargets, Met, Looking, Added, Touched;
      ghost var s := Now();
      var wants := Wants(c.recipes[fn]);
      var todo := wants;
      LookingStarts(c, s, wants);
      ProgressedNot(s);
      while todo != {}
        invariant todo <= wants && failedFns == old(failedFns)
        invariant Inv(c, Seen(), needs, Now(), {fn}) && Looking(c, s, Now(), wants, todo)
        invariant Progressed(s, Now()) && targets.Keys <= old(targets.Keys) + AllTargets(c)
        invariant Touched(c, Seen(), targets)
        decreases todo
      {
        var t :| t in todo;
        ghost var here := Now();
        SeenTarget(t);
        TouchedStays(c, Seen(), here.lists, targets);
        InvExtends(c, Seen(), needs, here, targets, {t}, {fn});
        ProgressedTwice(s, here, Now());
        LookingStep(c, s, here, Now(), wants, todo, t);
        assert t in failedTargets <==> t in s.removed by { LookingKeeps(c, s, Now(), wants, todo); }
        here := Now();
        if t in failedTargets {
          FailPending(c, fn, t);
          ProgressedTwice(s, here, Now());
          LookingBlocked(c, needs, s, here, Now(), fn, todo, t);
          return;
        }
        todo := todo - {t};
      }
      LookingDone(c, needs, s, Now(), fn);
      InvDone(c, Seen(), needs, Now(), fn);
    }

    /** `fail_fn` on the recipe being added, which names the removed target `t`. */
    method FailPending(c: Catalogue, fn: Fn, ghost t: Target)
      requires CatalogueOk(c) && fn in seenFns && Inv(c, Seen(), needs, Now(), {fn}) && Touched(c, Seen(), targets)
      requires fn in c.recipes && t in Wants(c.recipes[fn]) && t in failedTargets
      modifies `targets, `failedFns, `failedTargets
      ensures Sane(c) && Progressed(old(Now()), Now()) && targets.Keys == old(targets.Keys)
      ensures Now() == AfterFailure(needs, old(Now()), {fn})
    {
      hide AfterFailure, Touched;
      ghost var s := Now();
      FailRecipe(fn);
      PendingFailed(c, Seen(), needs, s, Now(), fn, t);
      TouchedStays(c, Seen(), s.lists, targets);
    }

    /** `add_build_target` and `add_runtime_target`. */
    method AddTarget(fn: Fn, t: Target)
      modifies `targets
      ensures targets == Listed(old(targets), t, fn)
    {
      if t in targets {
        if fn in targets[t] {
          return;
        }
        targets := targets[t := targets[t] + [fn]];
        return;
      }
      targets := targets[t := [fn]];
    }

    /** The loop that ends `add_provider_internal` and `add_rprovider`. */
    method AddEach(c: Catalogue, eligible: seq<Fn>, t: Target)
      requires Ready(c) && Addable(c, t) && !Provided(targets, t)
      requires eligible == Without(SourceList(c, t), Now().failed) && eligible != []
      modifies `targets, `failedFns, `failedTargets, `seenFns, `needs
      ensures Ready(c) && Progressed(old(Now()), Now()) && Settled(Now(), t)
      ensures targets.Keys <= old(targets.Keys) + AllTargets(c) + {t}
      ensures AllTaken(c, Now(), t)
      ensures RemovedIffBlocked(c, old(Seen()), old(Now()), Now(), t)
    {
      ghost var s, seen := Now(), Seen();
      hide Inv, Settled, Wants, AllTargets, Sources, SourceList, Progressed, Taken, Blocked, AllTaken;
      hide Adding, IsFirst, Provided, AddedOne, FirstIsBlocked, Touched, InTurn, NextTurn;
      AddingStarts(c, seen, s, t, eligible);
      for i := 0 to |eligible|
        invariant Ready(c) && Adding(c, seen, s, Now(), t, eligible, i) && (i == 0 ==> Seen() == seen)
        invariant targets.Keys <= old(targets.Keys) + AllTargets(c) + {t}
      {
        var fn := eligible[i];
        ghost var here, before := Now(), Seen();
        EligibleOk(c, s, t, eligible, i);
        FirstTaken(c, seen, s, here, t, eligible, i);
        if fn !in failedFns {
          AddingInTurn(c, seen, s, here, t, eligible, i);
          AddOne(c, fn, t);
        }
        AddingStep(c, seen, before, s, here, Now(), t, eligible, i);
      }
      AddingEnds(c, seen, s, Now(), t, eligible);
    }

    /** `add_build_target` or `add_runtime_target`, then `add_tasks`. */
    method AddOne(c: Catalogue, fn: Fn, t: Target)
      requires Ready(c) && fn !in failedFns && fn in Sources(c, t) && Addable(c, t)
      requires IsFirst(c, Now(), t, fn) && NextTurn(c, Now(), t, fn)
      modifies `targets, `failedFns, `failedTargets, `seenFns, `needs
      ensures Ready(c) && targets.Keys <= old(targets.Keys) + AllTargets(c) + {t}
      ensures AddedOne(c, old(Seen()), old(Now()), Now(), t, fn)
    {
      SourceKnown(c, t, fn);
      hide Inv, AddedOne, Sources, SourceList, Added, IsFirst, Blocked, Progressed, Settled, Taken, IsListed;
      hide AllTargets, Listed, Touched, InTurn, NextTurn;
      ghost var s, n, seen := Now(), needs, Seen();
      ListedFor(c, seen, n, s, t, fn);
      AddTarget(fn, t);
      ghost var s1 := Now();
      assert s1 == s.(lists := Listed(s.lists, t, fn));
      ListedKeys(s.lists, t, fn);
      TouchedStays(c, seen, s.lists, targets);
      AddTasks(c, fn);
      OneAdded(c, seen, n, needs, s, s1, Now(), t, fn);
      TurnAdded(c, needs, s, Now(), t, fn, Blocked(c, seen, s1, fn));
    }

    /** Add the providers of a build target; false stands for `NoProvider`, raised before any change. */
    method AddProviderInternal(c: Catalogue, item: Name) returns (ok: bool)
      requires Ready(c)
      modifies `targets, `failedFns, `failedTargets, `seenFns, `needs
      ensures Ready(c) && Progressed(old(Now()), Now())
      ensures targets.Keys <= old(targets.Keys) + AllTargets(c) + {Build(item)}
      ensures ok && !c.ignored(item) ==> Settled(Now(), Build(item))
      ensures ok && !c.ignored(item) && !Provided(old(targets), Build(item)) ==> AllTaken(c, Now(), Build(item))
      ensures !ok ==> Unprovidable(c, Now(), Build(item))
      ensures ok <==> c.ignored(item) || !(Sources(c, Build(item)) <= old(Now().failed))
      ensures ok && !c.ignored(item) && !Provided(old(targets), Build(item)) ==>
        RemovedIffBlocked(c, old(Seen()), old(Now()), Now(), Build(item))
      ensures !ok ==> Now() == old(Now()) && needs == old(needs) && seenFns == old(seenFns)
    {
      if c.ignored(item) {
        return true;
      }
      if item !in c.providers {
        return false;
      }
      if Build(item) in targets && targets[Build(item)] != [] {
        SomeSource(c, Now(), Build(item));
        return true;
      }
      var eligible := Without(c.providers[item], Failed());
      NoneLeft(c.providers[item], Failed());
      if eligible == [] {
        return false;
      }
      hide Inv, Progressed, Settled, FirstIsBlocked, AllTaken, AllTargets, Touched, InTurn;
      AddEach(c, eligible, Build(item));
      return true;
    }

    function Failed(): set<Fn>
      reads this
    {
      set f | f in failedFns
    }

    /** Add the providers of a runtime name; false stands for `NoRProvider` or `MultipleRProvider`. */
    method AddRProvider(c: Catalogue, item: Name) returns (ok: bool)
      requires Ready(c)
      modifies `targets, `failedFns, `failedTargets, `seenFns, `needs
      ensures Ready(c) && Progressed(old(Now()), Now())
      ensures targets.Keys <= old(targets.Keys) + AllTargets(c) + {Run(item)}
      ensures ok && !c.ignored(item) ==> Settled(Now(), Run(item))
      ensures ok && !c.ignored(item) && !Provided(old(targets), Run(item)) ==> AllTaken(c, Now(), Run(item))
      ensures !ok ==> Unprovidable(c, Now(), Run(item))
      ensures var t := Run(item);
        var found := !(Sources(c, t) <= old(Now().failed)) && !Ambiguous(c, t);
        ok <==> c.ignored(item) || Provided(old(targets), t) || found
      ensures ok && !c.ignored(item) && !Provided(old(targets), Run(item)) ==>
        RemovedIffBlocked(c, old(Seen()), old(Now()), Now(), Run(item))
      ensures !ok ==> Now() == old(Now()) && needs == old(needs) && seenFns == old(seenFns)
    {
      if c.ignored(item) {
        return true;
      }
      if Run(item) in targets && targets[Run(item)] != [] {
        return true;
      }
      if item !in c.rproviders {
        return false;
      }
      var choice := c.rproviders[item];
      var eligible := Without(choice.eligible, Failed());
      NoneLeft(choice.eligible, Failed());
      if eligible == [] {
        return false;
      }
      if choice.numberPreferred > 1 {
        return false;
      }
      hide Inv, Progressed, Settled, FirstIsBlocked, AllTaken, AllTargets, Touched, InTurn;
      AddEach(c, eligible, Run(item));
      return true;
    }

    /** `remove_buildtarget`/`remove_runtarget` between two resolution steps. */
    method RemoveUnprovided(c: Catalogue, t: Target)
      requires Ready(c) && Unprovidable(c, Now(), t)
      modifies `targets, `failedFns, `failedTargets
      ensures Ready(c) && Progressed(old(Now()), Now()) && Settled(Now(), t)
      ensures targets.Keys == old(targets.Keys)
    {
      ghost var s := Now();
      assert ListsOk(targets) && Clean(Now());
      hide Inv, Clean, Removed, Progressed, Settled, Touched, InTurn;
      FailTarget(t);
      TurnRemoved(c, needs, s, t);
      TargetFailed(c, Seen(), needs, s, Now(), t);
      TouchedStays(c, Seen(), s.lists, targets);
    }

    /** Request a build target from outside. */
    method AddProvider(c: Catalogue, item: Name)
      requires Ready(c)
      modifies this
      ensures Ready(c) && Progressed(old(Now()), Now())
      ensures c.ignored(item) || Settled(Now(), Build(item))
      ensures item in externalTargets
      ensures !c.ignored(item) && Sources(c, Build(item)) <= old(Now().failed) ==> seenFns == old(seenFns)
      ensures var (t, s) := (Build(item), old(Now()));
        !c.ignored(item) && !(Sources(c, t) <= s.failed) && !Provided(s.lists, t) ==>
          AllTaken(c, Now(), t) && RemovedIffBlocked(c, old(Seen()), s, Now(), t)
    {
      hide Inv, Settled, Progressed, AllTaken, FirstIsBlocked, Sources, Touched, InTurn;
      var ok := AddProviderInternal(c, item);
      if !ok {
        RemoveUnprovided(c, Build(item));
      }
      if item !in externalTargets {
        externalTargets := externalTargets + [item];
      }
    }

    /** The body of both loops of `add_unresolved`: try to add a provider, else remove the target. */
    method ResolveOne(c: Catalogue, t: Target, ghost universe: set<Target>) returns (ok: bool)
      requires Ready(c) && targets.Keys + AllTargets(c) + {t} <= universe && !c.ignored(t.name)
      modifies `targets, `failedFns, `failedTargets, `seenFns, `needs
      ensures Ready(c) && Progressed(old(Now()), Now()) && Settled(Now(), t)
      ensures targets.Keys <= universe
      ensures !ok ==> targets.Keys == old(targets.Keys)
    {
      hide Inv, InTurn, Touched, CatalogueOk, FirstIsBlocked, AllTaken;
      if t.Build? {
        ok := AddProviderInternal(c, t.name);
      } else {
        ok := AddRProvider(c, t.name);
      }
      if !ok {
        RemoveUnprovided(c, t);
      }
    }

    /** One sweep over the targets found unresolved; `added` counts those that did not raise. */
    method ResolveEach(c: Catalogue, unresolved: set<Target>, ghost universe: set<Target>) returns (added: nat)
      requires Ready(c) && targets.Keys + AllTargets(c) <= universe
      requires unresolved <= Open(c, universe, Now())
      modifies `targets, `failedFns, `failedTargets, `seenFns, `needs
      ensures Ready(c) && Progressed(old(Now()), Now()) && targets.Keys <= universe
      ensures added > 0 ==> |Open(c, universe, Now())| < |Open(c, universe, old(Now()))|
      ensures added == 0 ==> targets.Keys == old(targets.Keys)
      ensures added == 0 ==> Unresolved(c, Now()) !! unresolved
    {
      hide Inv, InTurn, Touched, CatalogueOk;
      ghost var s := Now();
      added := 0;
      var todo := unresolved;
      while todo != {}
        invariant Ready(c) && Progressed(s, Now()) && targets.Keys <= universe
        invariant todo <= unresolved
        invariant added > 0 ==> |Open(c, universe, Now())| < |Open(c, universe, s)|
        invariant added == 0 ==> targets.Keys == s.lists.Keys
        invariant forall t :: t in unresolved && !Settled(Now(), t) ==> t in todo
        decreases todo
      {
        var t :| t in todo;
        ghost var here := Now();
        var ok := ResolveOne(c, t, universe);
        ProgressedTwice(s, here, Now());
        OpenShrinks(c, universe, s, Now());
        if ok {
          added := added + 1;
        } else {
          OpenShrinks(c, universe, here, Now());
        }
        todo := todo - {t};
      }
    }

    /** `get_unresolved_build_targets` and `get_unresolved_run_targets`. */
    method GetUnresolved(c: Catalogue, runtime: bool) returns (unresolved: set<Target>)
      ensures unresolved == set t | t in Unresolved(c, Now()) && t.Run? == runtime
    {
      unresolved := set t | t in targets && t.Run? == runtime && !c.ignored(t.name) &&
        t !in failedTargets && targets[t] == [];
    }

    /**
     Resolve targets until a pass adds nothing. It terminates for every catalogue, and then the
     surviving graph is complete, no recipe has failed but for want of a target it names, every
     recipe added that cannot be built has failed, and what the tasks of the recipes added name is
     ignored, removed or provided as well. The provider listed first, the one that the run queue takes,
     is the first of the selection that has not failed.
     */
    method AddUnresolved(c: Catalogue)
      requires Ready(c)
      modifies `targets, `failedFns, `failedTargets, `seenFns, `needs
      ensures Ready(c) && Progressed(old(Now()), Now())
      ensures Complete(c, Seen(), Now()) && Contained(c, Now())
      ensures forall f :: f in Seen() && Starved(c, f) ==> f in failedFns
      ensures TasksSettled(c, Seen(), Now())
      ensures forall t :: Provided(targets, t) ==> FirstChoice(c, Now(), t)
    {
      ghost var universe := targets.Keys + AllTargets(c);
      ghost var s := Now();
      while true
        invariant Ready(c) && Progressed(s, Now()) && targets.Keys <= universe
        decreases |Open(c, universe, Now())|
      {
        ghost var start := Now();
        var unresolved := GetUnresolved(c, false);
        var builds := ResolveEach(c, unresolved, universe);
        ghost var middle := Now();
        unresolved := GetUnresolved(c, true);
        var runs := ResolveEach(c, unresolved, universe);
        PassStep(c, universe, s, start, middle, Now());
        if builds + runs == 0 {
          ResolvedIsComplete(c, Seen(), needs, Now());
          ResolvedTouches(c, Seen(), Now());
          forall t | Provided(targets, t) ensures FirstChoice(c, Now(), t) { FirstIsPreferred(c, Now(), t); }
          forall f | f in Seen() && Starved(c, f) ensures f in failedFns { StarvedHasFailed(c, Seen(), Now(), f); }
          break;
        }
      }
    }
  }

  lemma TouchesOne(tasks: map<Task, TaskEntry>, k: Task)
    requires k in tasks
    ensures Touches(tasks[k]) <= TouchesAll(tasks)
  {
  }

  lemma ExtendsKeys(m: Providers, m': Providers, u: set<Target>)
    requires Extends(m, m', u)
    ensures m.Keys <= m'.Keys
  {
  }

  /** Providers of the target may be added. */
  predicate Addable(c: Catalogue, t: Target) { !c.ignored(t.name) && !Ambiguous(c, t) }

  /** All that may provide `t` are listed for it, but for those that have failed. */
  ghost predicate AllTaken(c: Catalogue, s: State, t: Target) {
    forall f :: f in Sources(c, t) ==> Taken(s, t, f)
  }

  lemma SourcesTaken(c: Catalogue, s: State, s': State, t: Target, eligible: seq<Fn>)
    requires eligible == Without(SourceList(c, t), s.failed) && s.failed <= s'.failed
    requires forall k :: 0 <= k < |eligible| ==> Taken(s', t, eligible[k])
    ensures AllTaken(c, s', t)
  {
    forall f | f in Sources(c, t) ensures Taken(s', t, f) { WithoutElem(SourceList(c, t), s.failed, f); }
  }

  lemma EligibleOk(c: Catalogue, s: State, t: Target, eligible: seq<Fn>, i: nat)
    requires eligible == Without(SourceList(c, t), s.failed) && i < |eligible|
    ensures eligible[i] in Sources(c, t) && eligible[i] !in s.failed
  {
    WithoutElem(SourceList(c, t), s.failed, eligible[i]);
  }

  lemma SourceKnown(c: Catalogue, t: Target, fn: Fn)
    requires CatalogueOk(c) && fn in Sources(c, t)
    ensures fn in c.recipes
  {
  }

  lemma SomeSource(c: Catalogue, s: State, t: Target)
    requires Sourced(c, s) && Clean(s) && Provided(s.lists, t)
    ensures !(Sources(c, t) <= s.failed)
  {
    assert s.lists[t][0] in Elems(s.lists[t]) && s.lists[t][0] in s.lists[t];
  }

  lemma SameRemoved(c: Catalogue, s: State, s': State, fn: Fn)
    requires s.removed == s'.removed
    ensures NamesRemoved(c, s, fn) <==> NamesRemoved(c, s', fn)
  {
  }

  lemma PassStep(c: Catalogue, universe: set<Target>, s: State, start: State, middle: State, end: State)
    requires Progressed(s, start) && Progressed(start, middle) && Progressed(middle, end)
    ensures Progressed(s, end)
    ensures |Open(c, universe, end)| <= |Open(c, universe, middle)| <= |Open(c, universe, start)|
    ensures start.lists.Keys == middle.lists.Keys == end.lists.Keys ==>
      Unresolved(c, end) <= Unresolved(c, middle) <= Unresolved(c, start)
  {
    OpenShrinks(c, universe, start, middle);
    OpenShrinks(c, universe, middle, end);
  }

  lemma OnlyProvider(list: seq<Fn>, fn: Fn)
    requires NoDup(list) && RemoveFirst(list, fn) == []
    ensures Elems(list) <= {fn}
  {
    RemoveFirstIsWithout(list, fn);
    WithoutElems(list, {fn});
  }

  /** The measure of the recursion drops when a failing recipe removes a target. */
  lemma SweepMeasure(n: Needs, s: State, here: State, fn: Fn)
    requires fn !in s.failed && s.failed + {fn} <= here.failed
    ensures |AllFns(n) - here.failed| < |AllFns(n) + {fn} - s.failed|
  {
    assert fn in AllFns(n) + {fn} - s.failed && fn !in AllFns(n) - here.failed;
    SmallerCard(AllFns(n) - here.failed, AllFns(n) + {fn} - s.failed);
  }

  /** What the nested removal of `t` needs, in the middle of the sweep for `fn`. */
  lemma SweepStep(
      n: Needs, s: State, here: State, fn: Fn, rest: set<Target>, t: Target, bound: set<Fn>)
    requires ListsOk(s.lists) && Closed(s.lists, n, bound)
    requires Sweeping(n, s, here, fn, rest) && here.failed <= bound
    requires t in rest && fn in here.lists[t] && Dropped(here, t, fn).lists[t] == []
    ensures ListsOk(Dropped(here, t, fn).lists) && Closed(Dropped(here, t, fn).lists, n, bound)
    ensures Victims(n, t) <= bound
    ensures |AllFns(n) - here.failed| < |AllFns(n) + {fn} - s.failed|
  {
    SweepListsOk(n, s, here, fn, rest);
    SweepClosed(n, s, here, fn, rest, bound);
    OnlyProvider(here.lists[t], fn);
    assert Elems(here.lists[t]) <= bound;
    SweepMeasure(n, s, here, fn);
  }

  lemma FailEachStep(n: Needs, s: State, here: State, fn: Fn, bound: set<Fn>)
    requires ListsOk(s.lists) && Closed(s.lists, n, bound) && fn in AllFns(n)
    requires Cascaded(n, s, here) && here.failed <= bound
    ensures ListsOk(here.lists) && Closed(here.lists, n, bound)
    ensures |AllFns(n) + {fn} - here.failed| <= |AllFns(n) - s.failed|
  {
    CascadeStep(n, s, here, bound);
    assert AllFns(n) + {fn} == AllFns(n);
  }

  /** Between two calls the lists stay in order, the bound closed, and the measure does not grow. */
  lemma CascadeStep(n: Needs, s: State, here: State, bound: set<Fn>)
    requires ListsOk(s.lists) && Closed(s.lists, n, bound)
    requires Cascaded(n, s, here) && here.failed <= bound
    ensures ListsOk(here.lists) && Closed(here.lists, n, bound)
    ensures |AllFns(n) - here.failed| <= |AllFns(n) - s.failed|
  {
    ShrunkListsOk(s.lists, here.lists, here.failed - s.failed);
    ClosedShrinks(s.lists, here.lists, n, here.failed - s.failed, bound);
    SmallerCard(AllFns(n) - here.failed, AllFns(n) - s.failed);
  }

  lemma ProgressedNot(s: State)
    ensures Progressed(s, s)
  {
  }

  /** What the loop over the eligible files has done after `i` of them. */
  ghost predicate Adding(c: Catalogue, seen: set<Fn>, s: State, now: State, t: Target, eligible: seq<Fn>, i: nat)
    requires i <= |eligible|
  {
    && (t in now.lists ==> forall f :: f in now.lists[t] ==> f in eligible[..i])
    && (i == 0 ==> now == s) && Progressed(s, now) && (forall k :: 0 <= k < i ==> Taken(now, t, eligible[k]))
    && (i > 0 ==> Settled(now, t))
    && (i > 0 && FirstIsBlocked(c, seen, s, t) ==> t in now.removed)
    && (i > 0 && !FirstIsBlocked(c, seen, s, t) ==> now.removed == s.removed && Provided(now.lists, t))
  }

  lemma AddingStarts(c: Catalogue, seen: set<Fn>, s: State, t: Target, eligible: seq<Fn>)
    requires !Provided(s.lists, t)
    ensures Adding(c, seen, s, s, t, eligible, 0)
  {
  }

  /** What `AddOne` promises of the state. */
  ghost predicate AddedOne(c: Catalogue, seen: set<Fn>, s: State, s': State, t: Target, fn: Fn) {
    && Progressed(s, s') && Settled(s', t) && Taken(s', t, fn)
    && (t in s'.lists ==> forall f :: f in s'.lists[t] ==> f == fn || (t in s.lists && f in s.lists[t]))
    && (Provided(s.lists, t) || !Blocked(c, seen, s, fn) ==> s'.removed == s.removed && Provided(s'.lists, t))
    && (!Provided(s.lists, t) && Blocked(c, seen, s, fn) ==> t in s'.removed)
  }

  lemma ListedKeys(m: Providers, t: Target, fn: Fn)
    ensures Listed(m, t, fn).Keys == m.Keys + {t}
  {
  }

  lemma ListedFor(c: Catalogue, seen: set<Fn>, n: Needs, s: State, t: Target, fn: Fn)
    requires Inv(c, seen, n, s, {}) && fn !in s.failed && fn in Sources(c, t) && Addable(c, t) && IsFirst(c, s, t, fn)
    ensures var s1 := s.(lists := Listed(s.lists, t, fn));
      Inv(c, seen, n, s1, {fn} - seen) && IsListed(s1, fn)
  {
    InvListed(c, seen, n, s, t, fn);
  }

  lemma OneAdded(c: Catalogue, seen: set<Fn>, n: Needs, n': Needs, s: State, s1: State, s': State, t: Target, fn: Fn)
    requires Inv(c, seen, n, s, {}) && fn !in s.failed && fn in Sources(c, t) && Addable(c, t) && IsFirst(c, s, t, fn)
    requires s1 == s.(lists := Listed(s.lists, t, fn)) && Progressed(s1, s')
    requires Added(c, n', s1, s', fn, Blocked(c, seen, s1, fn)) && InTurn(c, s) && NextTurn(c, s, t, fn)
    ensures AddedOne(c, seen, s, s', t, fn)
  {
    hide InTurn, NextTurn, Inv, Added, IsFirst, Sources, SourceList, Progressed, AddedOne, NamesRemoved, Listed;
    TurnAdded(c, n', s, s', t, fn, Blocked(c, seen, s1, fn));
    ListedSettles(c, seen, n, s, t, fn);
    ProgressedTwice(s, s1, s');
    SameRemoved(c, s, s1, fn);
    AddedFor(c, seen, n, n', s, s', t, fn, Blocked(c, seen, s, fn));
    OneTaken(c, seen, s, s1, s', t, fn);
  }

  lemma ListedSettles(c: Catalogue, seen: set<Fn>, n: Needs, s: State, t: Target, fn: Fn)
    requires Inv(c, seen, n, s, {}) && fn !in s.failed && fn in Sources(c, t) && Addable(c, t) && IsFirst(c, s, t, fn)
    ensures var s1 := s.(lists := Listed(s.lists, t, fn)); Progressed(s, s1) && Settled(s1, t) && Taken(s1, t, fn)
  {
    InvListed(c, seen, n, s, t, fn);
    ListedMembers(s.lists, t, fn);
    hide Inv;
  }

  lemma OneTaken(c: Catalogue, seen: set<Fn>, s: State, s1: State, s': State, t: Target, fn: Fn)
    requires Progressed(s, s') && Progressed(s1, s') && Settled(s1, t) && Taken(s1, t, fn)
    requires Provided(s.lists, t) || !Blocked(c, seen, s, fn) ==> s'.removed == s.removed && Provided(s'.lists, t)
    requires !Provided(s.lists, t) && Blocked(c, seen, s, fn) ==> t in s'.removed
    requires t in s'.lists ==> forall f :: f in s'.lists[t] ==> f == fn || (t in s.lists && f in s.lists[t])
    ensures AddedOne(c, seen, s, s', t, fn)
  {
    hide Blocked;
  }

  lemma AddingStep(c: Catalogue, seen: set<Fn>, before: set<Fn>, s: State, here: State, now: State, t: Target,
      eligible: seq<Fn>, i: nat)
    requires i < |eligible| && eligible == Without(SourceList(c, t), s.failed) && !Provided(s.lists, t)
    requires Adding(c, seen, s, here, t, eligible, i) && (i == 0 ==> before == seen && eligible[0] !in s.failed)
    requires if eligible[i] in here.failed then now == here else AddedOne(c, before, here, now, t, eligible[i])
    ensures Adding(c, seen, s, now, t, eligible, i + 1)
  {
    hide Blocked;
    if eligible[i] !in here.failed { ProgressedTwice(s, here, now); }
  }

  lemma AddingInTurn(c: Catalogue, seen: set<Fn>, s: State, here: State, t: Target, eligible: seq<Fn>, i: nat)
    requires eligible == Without(SourceList(c, t), s.failed) && i < |eligible| && eligible[i] !in here.failed
    requires Adding(c, seen, s, here, t, eligible, i)
    ensures NextTurn(c, here, t, eligible[i])
  {
    EligibleInTurn(c, s, here, t, eligible, i);
  }

  lemma AddingEnds(c: Catalogue, seen: set<Fn>, s: State, now: State, t: Target, eligible: seq<Fn>)
    requires eligible == Without(SourceList(c, t), s.failed) && eligible != []
    requires Adding(c, seen, s, now, t, eligible, |eligible|)
    ensures Progressed(s, now) && Settled(now, t) && AllTaken(c, now, t)
    ensures RemovedIffBlocked(c, seen, s, now, t)
  {
    SourcesTaken(c, s, now, t, eligible);
  }

  /** `fn` is the first that may provide `t`, or the first has been added or has failed. */
  ghost predicate IsFirst(c: Catalogue, s: State, t: Target, fn: Fn) {
    SourceList(c, t) != [] && (SourceList(c, t)[0] == fn || Taken(s, t, SourceList(c, t)[0]))
  }

  lemma FirstTaken(c: Catalogue, seen: set<Fn>, s: State, here: State, t: Target, eligible: seq<Fn>, i: nat)
    requires eligible == Without(SourceList(c, t), s.failed) && i < |eligible|
    requires Adding(c, seen, s, here, t, eligible, i)
    ensures IsFirst(c, here, t, eligible[i])
  {
    FirstLeft(SourceList(c, t), s.failed);
  }

  lemma {:induction false} FirstLeft(all: seq<Fn>, failed: set<Fn>)
    requires Without(all, failed) != []
    ensures all != [] && (all[0] == Without(all, failed)[0] || all[0] in failed)
  {
  }

  lemma NoneLeft(all: seq<Fn>, failed: set<Fn>)
    ensures Without(all, failed) == [] <==> Elems(all) <= failed
  {
    if Without(all, failed) != [] {
      WithoutElem(all, failed, Without(all, failed)[0]);
    }
    forall f | f in all && f !in failed ensures Without(all, failed) != [] { WithoutElem(all, failed, f); }
  }

  // ---- a target that is removed and provided ----

  /** `t` may be built by "f1.bb", which needs the unknown "u", or by "f2.bb", which needs nothing. */
  function TwoProviders(): Catalogue {
    Catalogue(
      map["f1.bb" := Recipe({"u"}, {}, map[]), "f2.bb" := Recipe({}, {}, map[])],
      map["t" := ["f1.bb", "f2.bb"]], map[], name => false)
  }

  lemma UnknownIsRemoved(s: State)
    requires Sourced(TwoProviders(), s) && Settled(s, Build("u"))
    ensures Build("u") in s.removed
  {
    assert !Provided(s.lists, Build("u"));
  }

  lemma FirstNeedsUnknown(s: State)
    requires s.failed == {} && Build("u") in s.removed
    ensures FirstIsBlocked(TwoProviders(), {}, s, Build("t"))
    ensures !(Sources(TwoProviders(), Build("t")) <= s.failed)
  {
    var c := TwoProviders();
    assert "f1.bb" in SourceList(c, Build("t"));
    WithoutElem(SourceList(c, Build("t")), {}, "f1.bb");
    assert Without(SourceList(c, Build("t")), {})[0] == "f1.bb";
    assert Build("u") in Wants(c.recipes["f1.bb"]);
  }

  /** Only the first recipe may fail. */
  lemma SecondIsSafe(s: State)
    requires Contained(TwoProviders(), s)
    ensures s.failed <= {"f1.bb"}
  {
    var c := TwoProviders();
    assert Condemned(c, {"f1.bb"});
  }

  lemma SecondIsListed(s: State)
    requires Sourced(TwoProviders(), s) && Clean(s) && s.failed <= {"f1.bb"} && AllTaken(TwoProviders(), s, Build("t"))
    ensures Build("t") in s.lists && "f2.bb" in s.lists[Build("t")]
  {
    assert "f2.bb" in SourceList(TwoProviders(), Build("t"));
    assert Taken(s, Build("t"), "f2.bb");
  }

  lemma ProvidedIsSeen(c: Catalogue, seen: set<Fn>, n: Needs, s: State, t: Target)
    requires Inv(c, seen, n, s, {})
    ensures Provided(s.lists, t) ==> seen != {}
  {
    if Provided(s.lists, t) {
      assert s.lists[t][0] in s.lists[t] && s.lists[t][0] in seen + {};
    }
  }

  /** Once "u" has been asked for and removed, asking for "t" leaves it both removed and provided. */
  method RemovedAndProvided() returns (d: TaskData)
    ensures d.Ready(TwoProviders())
    ensures Build("t") in d.failedTargets
    ensures Build("t") in d.targets && "f2.bb" in d.targets[Build("t")] && "f2.bb" !in d.failedFns
  {
    hide Condemned, Settled, Progressed, FirstIsBlocked, AllTaken, Sourced, Contained;
    var c := TwoProviders();
    d := new TaskData();
    d.AddProvider(c, "u");
    UnknownIsRemoved(d.Now());
    assert d.Seen() == {} && d.Now().failed == {};
    FirstNeedsUnknown(d.Now());
    ProvidedIsSeen(c, d.Seen(), d.needs, d.Now(), Build("t"));
    d.AddProvider(c, "t");
    SecondIsSafe(d.Now());
    SecondIsListed(d.Now());
    assert "f2.bb" !in d.Now().failed;
  }
}

# BitBake core, modelled and proved in Dafny

The repository vendors BitBake, the build engine of OpenEmbedded, and the SDK relocation script that
goes with it. This project models the parts of it whose correctness is hardest to see, and proves
what they promise:

* **Resolution** (`Cascade`, `Resolution`, `TaskData`): which recipes are built, which fail when
  something is missing, and why the resolution loop ends.
* **Task search** (`TaskChain`) and **signatures** (`SignatureDeps`): the chains between two tasks,
  and the variables that go into a task's hash.
* **Datastore** (`PlainStore`, `DataSmart`, `ExportList`, `StoreLaws`, `IndexLaws`, `IndexShape`,
  `OverrideSelect`): copy-on-write dictionaries with overrides, against plain maps.
* **Parallel parsing** (`ParsePool`, `ParseProgress`, `SiggenCodec`) and **caches** (`CacheMerge`,
  `ExtrasProtocol`, `ExtrasProgress`): protocols between processes, over every interleaving, and that
  they get done.
* **Layers and providers** (`LayerPriority`, `Ranking`, `Providers`, `VirtualNames`): priorities, and
  the choice of one recipe file for each name.
* **Edges** (`Utf8`, `Fifo`, `ShellLogging`, `DiskMonitor`, `DiskHistory`, `Elf`, `PrefixText`,
  `Relocate`, `RelocateLaws`): messages of shell tasks, disk warnings, and rewriting ELF files in place.

`Lists`, `Sorting`, `Colons` and `Options` hold what several of them use. Objects whose methods update
fields are classes; loops are loops; each such method is tied to a specification on values, and the
properties are lemmas about that. Processes that run side by side are state machines, one step each
for everything another process can observe.

`dafny verify dfyconfig.toml` checks the whole project.

## What the proofs found

Where the code does not do what its documentation or its names suggest, the model follows the code, and
the exact condition is proved:

* `min_prio` is not the lowest explicit priority exactly if that is 0 and another priority follows it
  (`MinPrioIsLeast`, `MinPrioForgetsZero`).
* An explicit priority of 0 counts as none at all: the layer gets one above `min_prio`, and keeps the 0 exactly
  if its dependencies come to that (`ZeroIsRecomputed`).
* An operation queued on a lower-case name without a colon is indexed under the name without its last
  letter, because the first `rfind` is not guarded; no other modelled update breaks the index
  (`UpdateKeepsIndex`, `QueuedOnLowerCase`).
* `renameVar` replaces the old name everywhere in the names of overriding variables, but not in their
  overrides: the entries keep their meaning exactly if no override has the old name in it
  (`RenamedIsWellIndexed`, `RenamedInOverride`).
* If one override name is a proper prefix of another, rewriting a key can mangle it, and an active
  override is never chosen (`PrefixEaten`, `NeverChosen`). This happens to some key exactly if there are
  such names (`PrefixFreeIff`); on a given input nothing is chosen exactly if no active key can match (`Select`).
* Among the matching versions of one layer priority, the preferred provider is the one with the lowest
  default preference, while the latest provider is taken from the highest; it has the highest exactly if
  they all have the same (`FirstMatchIsBest`, `HighestPreferenceIff`, `LowerIsPreferred`).
* `variant2virtual` and `realfn2virtual` disagree on a variant `mc:X:cls` exactly if X is empty or the class
  starts with a colon (`VariantAgrees`, `ColonClassDropped`).
* Recipes are dealt out to nobody exactly if there are some and there is no parse process; the generator
  then raises, and never completes (`ChunkifyDealsAll`, `NoWorkersNeverCompletes`, `NoWorkersRaises`).
* After a disk warning at level 0 the next may follow at once, since the remembered level is then the initial
  one; after any other level it is more than the interval below (`ApartIff`, `FullDiskWarnsEachTime`).
* A target whose providers are being added is removed, even if another of them is added next, exactly if the
  first that has not failed was not added before and names a target removed before (`AddOne`,
  `AddProviderInternal`, `RemovedAndProvided`).
* A FIFO message whose dispatch raises is not taken out of the buffer. These are exactly the messages that
  are not UTF-8, and the debug messages without a text or with a level that is no number (`ReadFifo`,
  `RaisesIff`, `DebugRaises`, `UndecodableNote`, `DebugWithoutText`).
* `bbdebug` with an empty level passes the check of the shell function, and its message then raises in the
  reader and stays in the buffer; no other call of a logging function does (`ShellCallArrives`).
* A variable that is not set and one that is empty give a task the same signature; any other change of one
  value changes the text that is hashed (`HashTellsApart`), but two changes at once can cancel (`ChangesCancel`).
* The set behind `__exportlist` is shared by copies: an export set on a copy shows up in the original exactly
  if the original had the list, and the name was not in it (`ExportInCopy`).
* The new `.sysdirs` and `.sysdirslen` are not checked against their sections, and run over them exactly if
  they are longer (`DirsOverflow`); with `.sysdirs` and no `.sysdirslen` the script fails on a variable that
  was never set, unless it has given up before (`CrashesIff`, `RelocateFile`).

## Model

| member | source | states |
|---|---|---|
| Cascade.LeastFailedIsClosed | Embedded/bitbake/lib/bb/taskdata.py:438-505 | The recipes that lie in every closed set above a seed form a closed set themselves: a target with providers, all of which fail, takes down every recipe that depends on it. |
| Cascade.LeastFailedIsLeast | Embedded/bitbake/lib/bb/taskdata.py:438-505 | No closed set above the seed is smaller. |
| Cascade.CascadedIsClosed | Embedded/bitbake/lib/bb/taskdata.py:438-505 | Whatever a finished cascade has done, the failed recipes are closed under that rule, and no failed recipe is left in a provider list. |
| Cascade.CascadeIsLeast | Embedded/bitbake/lib/bb/taskdata.py:438-505 | A cascade that stays inside the least closed set ends in one determined state: failed recipes, provider lists and removed targets do not depend on the order of the dictionaries. |
| Cascade.SweepRemoves | Embedded/bitbake/lib/bb/taskdata.py:438-460 | In the middle of one failing recipe's loop over the targets, a nested removal that empties further lists keeps the account of who failed, what was emptied and what is still to do. |
| TaskDatabase.TaskData.FailFn | Embedded/bitbake/lib/bb/taskdata.py:438-460 | `fail_fn` at any nesting depth: recipes fail, leave every list, each target this empties is removed once with its dependees, nothing fails outside a given closed set, and the mutual recursion ends because unfailed recipes decrease. |
| TaskDatabase.TaskData.RemoveTarget | Embedded/bitbake/lib/bb/taskdata.py:462-505 | `remove_buildtarget` and `remove_runtarget`: the same account, and every recipe that depends on the target, or has a task that does, has failed. |
| TaskDatabase.TaskData.FailRecipe | Embedded/bitbake/lib/bb/taskdata.py:438-460 | An outermost failure leaves exactly the least closed set failed; the whole new state is a function of the old one. |
| TaskDatabase.TaskData.FailTarget | Embedded/bitbake/lib/bb/taskdata.py:462-505 | An outermost removal likewise, starting from the dependees of the target. |
| Resolution.CondemnedIsClosed | Embedded/bitbake/lib/bb/taskdata.py:337-505 | A set of recipes that is closed over the recipe data alone is closed under the cascade of every reachable state. |
| Resolution.VictimsNameIt | Embedded/bitbake/lib/bb/taskdata.py:280-298 | Exactly the recipes added that name a target, in DEPENDS, RDEPENDS or a task, go down with it. |
| Resolution.ContainedAfter | Embedded/bitbake/lib/bb/taskdata.py:438-505 | A cascade never fails a recipe, and never removes a target, that is not in every such set: there is no failure without a cause, not even a circular one. A target has a cause if it has no provider, no unique preference, or if the first of its providers fails. |
| Resolution.InvCascade | Embedded/bitbake/lib/bb/taskdata.py:67-166 | The invariant between two calls (tables are those of the recipes added, listed providers are added and unfailed, no unfailed recipe needs a removed target) survives every cascade. |
| Resolution.ResolvedIsComplete | Embedded/bitbake/lib/bb/taskdata.py:507-531 | With nothing unresolved, everything an unfailed recipe names in DEPENDS or RDEPENDS is ignored or has a provider, and every listed provider is added and unfailed. |
| Resolution.StarvedHasFailed | Embedded/bitbake/lib/bb/taskdata.py:507-531 | With nothing unresolved, every recipe added has failed that lies in all sets closed under one rule: a recipe is in the set if it wants a target that none but recipes of the set may provide. |
| Resolution.StarvedIff | Embedded/bitbake/lib/bb/taskdata.py:337-436 | A recipe cannot be built exactly if it wants a target that is not ignored and that is ambiguous or has only providers that cannot be built. |
| Resolution.FoundIff | Embedded/bitbake/lib/bb/taskdata.py:337-436 | A build name can be given a provider exactly if it is ignored or one of its files has not failed, a runtime name exactly if besides at most one of the eligible files is preferred. |
| Resolution.FirstIsPreferred | Embedded/bitbake/lib/bb/runqueue.py:699-711 | The provider listed first for a target, which is the one that the run queue builds, is the first of the selection that has not failed. |
| Resolution.TurnAdded | Embedded/bitbake/lib/bb/taskdata.py:337-436 | Adding a recipe keeps all lists in the order of the selection, with no file before its turn, whatever its tasks bring about. |
| Resolution.OpenShrinks | Embedded/bitbake/lib/bb/taskdata.py:507-531 | Settled targets stay settled, and each one newly settled makes the measure of the resolution loop smaller. |
| TaskDatabase.TaskData.AddTasks | Embedded/bitbake/lib/bb/taskdata.py:67-166 | Adding a recipe keeps the invariant. The recipe fails exactly if it was not added before and names a target removed before; then its failure takes its course, and if not, nothing fails or is removed. Every target that its tasks name is known afterwards. |
| TaskDatabase.TaskData.AddOne | Embedded/bitbake/lib/bb/taskdata.py:337-436 | Adding one provider of a target and its tasks: the target is removed exactly if it had no provider and the recipe fails as above; otherwise it has one now, and nothing is removed. |
| TaskDatabase.TaskData.AddProviderInternal | Embedded/bitbake/lib/bb/taskdata.py:337-386 | Afterwards every eligible file is listed for the target or has failed, and the target has been removed exactly if the first file that has not failed fails as above. Where the code raises, exactly if all files have failed, nothing has changed and nothing could have provided the target. |
| TaskDatabase.TaskData.AddRProvider | Embedded/bitbake/lib/bb/taskdata.py:388-436 | The same for runtime names, where several preferred providers raise as well. |
| TaskDatabase.TaskData.AddProvider | Embedded/bitbake/lib/bb/taskdata.py:327-335 | A requested target ends settled: ignored, provided or removed, and removed under the same condition. |
| TaskDatabase.RemovedAndProvided | Embedded/bitbake/lib/bb/taskdata.py:337-386 | A catalogue in which the first of two recipes for a target needs an unknown name: the target ends removed, and provided by the second. |
| TaskDatabase.TaskData.GetUnresolved | Embedded/bitbake/lib/bb/taskdata.py:244-272 | Exactly the known targets that are not ignored, not removed and have no provider. |
| TaskDatabase.TaskData.ResolveEach | Embedded/bitbake/lib/bb/taskdata.py:507-531 | A pass that adds something strictly uses up targets of a finite universe; a pass that adds nothing settles all it was given. |
| TaskDatabase.TaskData.AddUnresolved | Embedded/bitbake/lib/bb/taskdata.py:507-531 | The resolution loop ends for every catalogue; then the surviving graph is complete, every failure has a cause, and every recipe added that cannot be built has failed: a bound on the failures from above and one from below. What the tasks of the recipes added name is ignored, removed or provided as well, and the first of each list of providers is the first of the selection that has not failed. |
| TaskChain.SimpleStep | Embedded/bitbake/lib/bb/build.py:1004-1021 | The search meets no repeated task from a task on exactly if it meets none from any of its successors on. |
| TaskChain.Search.FollowChain | Embedded/bitbake/lib/bb/build.py:1004-1021 | `follow_chain` succeeds exactly if no open walk from the task repeats a task of the shared chain; then the output has gained, without duplicates, the chain and the tasks on walks to the end, and the chain is restored. |
| TaskChain.RepeatIsCycle | Embedded/bitbake/lib/bb/build.py:1004-1021 | A repeated task on an open walk is a cycle reachable from the start without passing the end, and the other way round. |
| TaskChain.TasksBetween | Embedded/bitbake/lib/bb/build.py:996-1023 | A circular dependency is reported exactly if such a cycle exists; otherwise the result is duplicate-free and has exactly the tasks on some dependency chain, provided a task other than the end exists. |
| TaskChain.EveryWalkIsChain | Embedded/bitbake/lib/bb/build.py:996-1023 | Where no walk from the start repeats a task, past the end as well, every walk from start to end counts as a chain. |
| SignatureDeps.FrontierEnds | Embedded/bitbake/lib/bb/data.py:390-405 | A worklist that has run dry has seen exactly the names reachable in one or more steps. |
| SignatureDeps.Generator.Expand | Embedded/bitbake/lib/bb/data.py:395-402 | One round fills in the missing rows and collects exactly the dependencies of the round. |
| SignatureDeps.Generator.Closure | Embedded/bitbake/lib/bb/data.py:390-404 | For one task, with rows of earlier tasks reused: everything reachable has its row, and nothing else has been added. |
| SignatureDeps.Generator.Generate | Embedded/bitbake/lib/bb/data.py:390-405 | `generate_dependencies`: every row is what `build_dependencies` answers, every task is covered, and no row is there that no task wants. |
| SignatureDeps.ExactIsClosed | Embedded/bitbake/lib/bb/data.py:390-405 | The table is closed under its own edges. |
| SignatureDeps.Follow | Embedded/bitbake/lib/bb/data.py:419-428 | The second pass finds every row it looks up, and collects exactly the reachable names. |
| SignatureDeps.HashTask | Embedded/bitbake/lib/bb/data.py:411-438 | The dependency set and the hashed text of a task meet a description in which the tables do not occur. |
| SignatureDeps.HashAll | Embedded/bitbake/lib/bb/data.py:375-440 | Both functions together: every task gets such an answer, and no other name does. |
| SignatureDeps.HashDependsOnReachable | Embedded/bitbake/lib/bb/data.py:407-440 | Two runs in which a task reaches the same names, and these and the task have the same values, give it the same dependency set and the same text, whatever else differs and however sets iterate. |
| SignatureDeps.HashDependsOnRows | Embedded/bitbake/lib/bb/data.py:407-440 | It is enough that the runs have the same rows for the task and for what one of them reaches from it. |
| SignatureDeps.HashTellsApart | Embedded/bitbake/lib/bb/data.py:411-437 | Two runs in which a task reaches the same names, and all values but one are alike: the texts are the same exactly if that value is alike as well, where only an unset and an empty variable are alike. |
| SignatureDeps.ChangesCancel | Embedded/bitbake/lib/bb/data.py:430-437 | Of two changes at once this is not true: with A `xB` and B empty, and with A `x` and B `B`, a task that uses both has the same text. |
| SignatureDeps.NameIsHashed | Embedded/bitbake/lib/bb/data.py:430-435 | Every name reached is in the text, with its value behind it. |
| SignatureDeps.TextLength | Embedded/bitbake/lib/bb/data.py:430-437 | The text is as long as the names and values together: nothing else is in it. |
| Sorting.LessIff | Embedded/bitbake/lib/bb/data.py:430 | The order is that of the first character in which two names differ, a start of a name before the name. |
| Sorting.SortedIsUnique | Embedded/bitbake/lib/bb/data.py:430 | A set has one sorted list. |
| SiggenCodec.SiggenRecipeInfo.Reset | Embedded/bitbake/lib/bb/cache.py:281-287 | A reset forgets both directions but keeps the shared store. |
| SiggenCodec.SiggenRecipeInfo.Save | Embedded/bitbake/lib/bb/cache.py:289-304 | `_save` sends what the encoding function says, for None, empty and filled tables, and advances its numbering accordingly. |
| SiggenCodec.SiggenRecipeInfo.Restore | Embedded/bitbake/lib/bb/cache.py:306-326 | `_restore` decodes with what it knows of that process, reports a number never defined, learns the new numbers, and leaves other processes alone. |
| SiggenCodec.DictRoundTrip | Embedded/bitbake/lib/bb/cache.py:289-326 | One table decodes to itself wherever reader and writer agree, and they agree afterwards. |
| SiggenCodec.InterleavedRoundTrip | Embedded/bitbake/lib/bb/cache.py:281-326 | For every interleaving of streams that each start from a fresh reset, every arrival restores to the table that was sent, whatever the reader knew before. |
| SiggenCodec.ReadAll | Embedded/bitbake/lib/bb/cache.py:306-338 | The reading process run over such an interleaving: no lookup fails, and table by table it gets back what was sent. |
| SiggenCodec.SentOnce | Embedded/bitbake/lib/bb/cache.py:289-304 | A stream carries each distinct value in full exactly once, numbered consecutively from 1. |
| StoreLaws.AssignmentSets | Embedded/bitbake/lib/bb/data_smart.py:591-620 | An assignment sets the text, and outside parsing drops pending operations and empties exactly the variables that actively override it; all other variables keep their flags. |
| StoreLaws.OperationQueues | Embedded/bitbake/lib/bb/data_smart.py:567-589 | An assignment to `VAR:append` and the like adds to the end of the queue of the base variable and changes no other flag. |
| StoreLaws.OperationIff | Embedded/bitbake/lib/bb/data_smart.py:545-574 | A name is an operation exactly if it is a base, a keyword and perhaps an override without capitals behind a colon; the base is the shortest. It is refused exactly if it has the old syntax in it, and is plain otherwise. |
| StoreLaws.QueuesOverride | Embedded/bitbake/lib/bb/data_smart.py:567-574 | Where the base has no keyword in it, `VAR:append:o` queues the value for VAR with the override `o`, and `VAR:append` without one. |
| StoreLaws.ActiveParts | Embedded/bitbake/lib/bb/data_smart.py:604-609 | An override counts as active exactly if OVERRIDES has it whole, or has all the parts between its colons. |
| StoreLaws.FlagUpdates | Embedded/bitbake/lib/bb/data_smart.py:740-918 | Setting or deleting a flag changes that flag of that variable. |
| StoreLaws.DelVarEmpties | Embedded/bitbake/lib/bb/data_smart.py:713-738 | A deleted variable has no flags; no other variable changes. |
| StoreLaws.IndexedUnderBase | Embedded/bitbake/lib/bb/data_smart.py:640-656 | A name with an override is indexed under its base, and no entry is forgotten. |
| IndexLaws.IndexedIff | Embedded/bitbake/lib/bb/data_smart.py:640-656 | Indexing a name adds exactly one entry for every colon behind which all parts begin with a lower-case letter or a digit, behind the entries that are there. |
| IndexLaws.UnindexedIff | Embedded/bitbake/lib/bb/data_smart.py:722-738 | Deleting a name takes out exactly those entries. |
| IndexLaws.UpdateIndexIff | Embedded/bitbake/lib/bb/data_smart.py:542-769 | The whole index after any update, entry by entry: what an assignment or a deletion drops, what it keeps, and what it adds. |
| IndexLaws.UpdateKeepsNoDups | Embedded/bitbake/lib/bb/data_smart.py:640-656 | No update ever lists an entry twice. |
| IndexShape.IndexedIsWellIndexed | Embedded/bitbake/lib/bb/data_smart.py:640-656 | Indexing a name keeps the meaning of the index exactly when the first, unguarded search for a colon finds one or the name does not start like an override. |
| IndexShape.UpdateKeepsIndex | Embedded/bitbake/lib/bb/data_smart.py:542-656 | Over all updates, the index keeps its meaning exactly unless the update queues an operation on such a name. |
| IndexShape.QueuedOnLowerCase | Embedded/bitbake/lib/bb/data_smart.py:567-589 | A concrete update that breaks it: `a:append`. |
| IndexShape.RenamedIsWellIndexed | Embedded/bitbake/lib/bb/data_smart.py:691-694 | Renaming a variable keeps the meaning of the entries that move to the new name exactly if none of their overrides has the old name in it. |
| IndexShape.RenamedInOverride | Embedded/bitbake/lib/bb/data_smart.py:691-694 | With `A:xA`, renaming `A` to `B` leaves the entry `[B:xB, xA]` under `B`. |
| DataStore.Layer.Find | Embedded/bitbake/lib/bb/data_smart.py:517-526 | `_findVar` walks the linked dictionaries to the nearest one that has the variable. |
| DataStore.Layer.MakeShadowCopy | Embedded/bitbake/lib/bb/data_smart.py:528-537 | A shadow copy changes no lookup of this store and no object of an ancestor. |
| DataStore.OverrideIndex.FindCuts | Embedded/bitbake/lib/bb/data_smart.py:640-656 | The colon loop visits exactly the cuts of the specification, and ends. |
| DataStore.OverrideIndex.AddAll | Embedded/bitbake/lib/bb/data_smart.py:640-656 | Override lists are replaced, never changed: the new index means what eager indexing means, and only new lists come in. |
| DataStore.DataSmart.CreateCopy | Embedded/bitbake/lib/bb/data_smart.py:983-1003 | The copy means the same store and owns only new objects. |
| DataStore.DataSmart.SetVarFlag | Embedded/bitbake/lib/bb/data_smart.py:740-769 | Refines the plain store and writes nothing but this store's own layer and index. |
| DataStore.DataSmart.DelVarFlag | Embedded/bitbake/lib/bb/data_smart.py:903-918 | The same for deleting a flag, including one that only an ancestor has. |
| DataStore.DataSmart.DelVar | Embedded/bitbake/lib/bb/data_smart.py:713-738 | The same for deleting a variable: a tombstone hides what ancestors have. |
| DataStore.DataSmart.Overwrite | Embedded/bitbake/lib/bb/data_smart.py:594-612 | The same for the part of an assignment that drops active overrides. |
| DataStore.DataSmart.SetVar | Embedded/bitbake/lib/bb/data_smart.py:542-623 | The same for assignment, queued operations and refused names. |
| DataStore.DataSmart.Run | Embedded/bitbake/lib/bb/data_smart.py:542-774 | The same for any sequence of updates. |
| DataStore.DataSmart.GetVarFlag | Embedded/bitbake/lib/bb/data_smart.py:771-825 | A lookup of a flag other than the content, through the links, answers what the plain store has. |
| DataStore.CopyAndUpdate | Embedded/bitbake/lib/bb/data_smart.py:983-1003 | A copy that receives any of the modelled updates equals an eager copy that received them, and no object that existed before is written, the list of exported names left out. |
| DataStore.TwoCopies | Embedded/bitbake/lib/bb/data_smart.py:983-1003 | Two copies updated in any interleaving never see each other's modelled updates, and the original sees neither, the list of exported names left out. |
| ExportList.Dict.Export | Embedded/bitbake/lib/bb/data_smart.py:764-769 | Setting `export` or `unexport` adds the name to the list that a lookup finds; an ancestor's list is not copied, it is the one that is written. |
| ExportList.ExportInCopy | Embedded/bitbake/lib/bb/data_smart.py:764-769 | So an export set on a copy shows up in the original, exactly if the original had a list without the name. |
| OverrideSelect.ReplaceAllShortens | Embedded/bitbake/lib/bb/data_smart.py:807-815 | Removing the matched override from a key makes the key shorter: the measure of the loop. |
| OverrideSelect.KeyStaysKey | Embedded/bitbake/lib/bb/data_smart.py:807-815 | With distinct names of which none is a proper prefix of another, a rewritten key is again made of names of OVERRIDES. |
| OverrideSelect.Sweep | Embedded/bitbake/lib/bb/data_smart.py:807-815 | The inner loop loses no value, reports a change exactly if some key ends in the override, and then makes the keys shorter in total, whatever the order of the keys; every key left was made from an active one by rewriting, and none disappears but by matching. |
| OverrideSelect.Pass | Embedded/bitbake/lib/bb/data_smart.py:804-815 | One pass over OVERRIDES: without a change, what was chosen is the latest active single name. |
| OverrideSelect.Select | Embedded/bitbake/lib/bb/data_smart.py:791-816 | The loop always ends, with keys that no override says anything about. Everything is consumed exactly if rewriting can bring every active key to an override name, something is chosen exactly if it can bring one there, and what is chosen is the value of such a key. With names of which none is a proper prefix of another, that is every key. For single names it takes the one latest in OVERRIDES. |
| OverrideSelect.Overriding | Embedded/bitbake/lib/bb/data_smart.py:791-816 | From the override list of a variable: something is chosen exactly if an active entry can match, and it is such an entry; with colon-free, non-empty, prefix-free names that is every active entry; for single names it is the last entry of the name latest in OVERRIDES. |
| OverrideSelect.PrefixFreeIff | Embedded/bitbake/lib/bb/data_smart.py:807-815 | Every key made of the non-empty parts of OVERRIDES can match, exactly if none of these is a proper prefix of another. |
| OverrideSelect.NeverChosen | Embedded/bitbake/lib/bb/data_smart.py:791-816 | For any two names, one a proper prefix of the other, an override list with an active entry from which nothing is chosen. |
| OverrideSelect.PrefixEaten | Embedded/bitbake/lib/bb/data_smart.py:807-815 | With OVERRIDES `x:ab:a` and the active key `x:ab:a` the loop leaves the key `xb` and chooses nothing. |
| ParsePool.ChunkifyDeals | Embedded/bitbake/lib/bb/cooker.py:2163-2165 | Dealing the recipes out in strides gives each of them to one worker, as often as it is listed. |
| ParsePool.ChunkifyDealsAll | Embedded/bitbake/lib/bb/cooker.py:2163-2165 | Nothing is lost in dealing exactly if there is a worker or nothing to do. |
| ParsePool.WorkKeepsHeld | Embedded/bitbake/lib/bb/cooker.py:2055-2078 | A step of a worker, with the queue full or not, keeps what it holds. |
| ParsePool.FullPutsNothing | Embedded/bitbake/lib/bb/cooker.py:2073-2078 | A `put` that times out puts nothing, and its result is the next to be tried. |
| ParsePool.ActConserves | Embedded/bitbake/lib/bb/cooker.py:2055-2081 | Every step of workers, feeder threads, consumer, kills and clean-up moves recipes and neither loses nor doubles one. |
| ParsePool.ActSound | Embedded/bitbake/lib/bb/cooker.py:2255-2276 | Every step keeps the invariant behind the end condition: a dead process is off the list only when dead, and with all dead and a timed-out `get` the queue is empty. |
| ParsePool.ExactlyOnePlace | Embedded/bitbake/lib/bb/cooker.py:2055-2276 | After any interleaving each recipe is with one worker, in the queue, delivered, or taken out by an error or the clean-up, and in one of these only. |
| ParsePool.CompletedDeliversAll | Embedded/bitbake/lib/bb/cooker.py:2255-2352 | A normal end means that every recipe was delivered exactly once, none failed, and nobody holds anything. |
| ParsePool.ErrorMeansKilledHolder | Embedded/bitbake/lib/bb/cooker.py:2255-2276 | "Not all recipes parsed" is raised only if a worker was killed while it held work. |
| ParsePool.ErrorExactly | Embedded/bitbake/lib/bb/cooker.py:2255-2276 | When the generator ends by itself, it raises exactly if that happened. |
| ParsePool.NoKillNoError | Embedded/bitbake/lib/bb/cooker.py:2255-2276 | Without kills it never raises, whatever the timing. |
| ParsePool.NoWorkersNeverCompletes | Embedded/bitbake/lib/bb/cooker.py:2146-2165 | With no worker process, parsing something never completes. |
| ParsePool.NoWorkersRaises | Embedded/bitbake/lib/bb/cooker.py:2255-2276 | Left alone, the generator then raises after one round. |
| ParseProgress.RunIsBounded | Embedded/bitbake/lib/bb/cooker.py:2055-2276 | Whatever the interleaving, kills and interrupts: but for timeouts a run with n workers and m recipes has at most m(n+8) + 5n + 3 steps, and each timeout costs at most n+3 more. |
| ParseProgress.GetsDone | Embedded/bitbake/lib/bb/cooker.py:2055-2276 | From every state reached without kills in which the generator has not ended, steps of the workers and of the generator lead to its end, and it is the right one: everything delivered once if no recipe fails, else the failure. |
| ParseProgress.EndIsVerdict | Embedded/bitbake/lib/bb/cooker.py:2255-2276 | Without kills and interrupts it ends in no other way, however it gets there. |
| ParseProgress.NeverHangs | Embedded/bitbake/lib/bb/cooker.py:2255-2276 | With any number of workers and whoever has been killed, such steps lead to the end of the generator: a dead worker is noticed. |
| LayerPriority.MinPrioIsLeast | Embedded/bitbake/lib/bb/cooker.py:1131-1147 | `min_prio` is the lowest explicit priority exactly unless that is 0 and another priority follows it. |
| LayerPriority.MinPrioForgetsZero | Embedded/bitbake/lib/bb/cooker.py:1143-1144 | Priorities 5, 0, 7 give 7. |
| LayerPriority.MinPrioAnyOrder | Embedded/bitbake/lib/bb/cooker.py:1131-1147 | Without a 0, listing the layers in another order gives the same minimum. |
| LayerPriority.PrioIsPriority | Embedded/bitbake/lib/bb/cooker.py:1209-1219 | The memoised recursion's answer: explicit non-zero priorities stay, any other layer is above the minimum and above all its dependencies, and exactly one above the highest of them. |
| LayerPriority.ZeroIsRecomputed | Embedded/bitbake/lib/bb/cooker.py:1209-1219 | A layer with the explicit priority 0 is above the minimum like one without any; it keeps the 0 exactly if its dependencies come to that. |
| LayerPriority.PriorityIsUnique | Embedded/bitbake/lib/bb/cooker.py:1209-1219 | On an acyclic graph only one assignment of priorities meets that description. |
| LayerPriority.Collections.ReadPriorities | Embedded/bitbake/lib/bb/cooker.py:1128-1147 | The first pass reads every explicit priority and the minimum of the listing order. |
| LayerPriority.Collections.CalcLayerPriority | Embedded/bitbake/lib/bb/cooker.py:1209-1219 | Calculating one layer gives it that priority and changes no priority calculated before. |
| LayerPriority.Collections.HandleCollections | Embedded/bitbake/lib/bb/cooker.py:1123-1223 | All layers end with that priority, in whatever order they are visited. |
| CacheMerge.MergeData | Embedded/bitbake/lib/bb/cache.py:897-901 | Merging adds the entries that are missing and keeps the existing ones, dictionary by dictionary. |
| CacheMerge.FoldKeepsFirst | Embedded/bitbake/lib/bb/cache.py:897-901 | Over any number of merges, every key of every table is there, with the entry of the first table that had it, the old cache first. |
| CacheMerge.MultiProcessCache.SaveExtras | Embedded/bitbake/lib/bb/cache.py:869-895 | A table goes to the first number from the process id on that is neither locked nor in use; no other file changes, and without data nothing is written. |
| CacheMerge.MultiProcessCache.SaveMerge | Embedded/bitbake/lib/bb/cache.py:903-936 | All extras are removed; the tables that could be read are merged in listing order, and the cache file is written exactly if there were any. |
| ExtrasProtocol.WriterKeepsFiles | Embedded/bitbake/lib/bb/cache.py:878-892 | A writer's step keeps every other writer's file: two writers are never at one number. |
| ExtrasProtocol.NoHalfRead | Embedded/bitbake/lib/bb/cache.py:903-925 | While the merger holds the global lock no extras file is half written. |
| ExtrasProtocol.ActKeepsInv | Embedded/bitbake/lib/bb/cache.py:869-936 | Every lock attempt, check, open, write, read and unlink of any process keeps the protocol invariant. |
| ExtrasProtocol.NothingIsLost | Embedded/bitbake/lib/bb/cache.py:869-936 | In every run no existing extras file is opened for writing, none is read half written, and each saved table is on disk or merged. |
| ExtrasProtocol.CacheHasEverything | Embedded/bitbake/lib/bb/cache.py:903-936 | Between merges the cache file has every key of the old cache and of all merged tables, first come first kept. |
| ExtrasProtocol.SavedIsCached | Embedded/bitbake/lib/bb/cache.py:869-936 | When the merger has left no extras, whatever any process has saved is in the cache file. |
| ExtrasProgress.WriterAlone | Embedded/bitbake/lib/bb/cache.py:869-895 | A process that runs `save_extras` while no merge is under way is through after a bounded number of steps, from any state. |
| ExtrasProgress.MergeEnds | Embedded/bitbake/lib/bb/cache.py:903-936 | A merge that has begun can always go on, ends, and leaves no extras. |
| ExtrasProgress.MergeDrains | Embedded/bitbake/lib/bb/cache.py:903-936 | At the end of a merge no extras are left, and every table saved before has been merged. |
| ExtrasProgress.AllGetsCached | Embedded/bitbake/lib/bb/cache.py:869-936 | From every state that any interleaving reaches there is a way to an end in which the cache file has every key that any process had to save. |
| VirtualNames.RoundTrip | Embedded/bitbake/lib/bb/cache.py:341-366 | Parsing a printed virtual name gives back file, class and multiconfig, for every class string. |
| VirtualNames.VariantAgrees | Embedded/bitbake/lib/bb/cache.py:358-379 | For a variant `mc:X:cls` the two printers agree exactly when X is not empty and the class does not start with a colon. |
| VirtualNames.ColonClassDropped | Embedded/bitbake/lib/bb/cache.py:358-379 | The variant `mc:x::native` for any file, printed by both. |
| VirtualNames.PlainVariantAgrees | Embedded/bitbake/lib/bb/cache.py:358-379 | For any other variant they agree. |
| Colons.JoinSplit | Embedded/bitbake/lib/bb/cache.py:346-354 | Joining the parts of a split gives the string back. |
| Colons.SplitJoin | Embedded/bitbake/lib/bb/cache.py:346-354 | Splitting joined colon-free parts gives the parts back. |
| Ranking.MatchesIff | Embedded/bitbake/lib/bb/providers.py:106-117 | A version matches a setting exactly if epoch and revision are those given, if any are, and the version is the one given or begins with what stands before a `%` at the end. |
| Ranking.SortPriorities | Embedded/bitbake/lib/bb/providers.py:63-88 | The groups have one layer priority each, falling; inside a group the default preference rises, and files of one preference keep their order. |
| Ranking.FindLatest | Embedded/bitbake/lib/bb/providers.py:199-216 | The file found is beaten by none, and beats all that stand before it. |
| Ranking.FindPreferred | Embedded/bitbake/lib/bb/providers.py:159-166 | The first match in the order of the groups, or none if nothing matches. |
| Ranking.LatestIsBest | Embedded/bitbake/lib/bb/providers.py:63-88 | In terms of the files as listed: highest layer priority, then highest default preference, then highest version, the earliest on ties. |
| Ranking.FirstMatchIsBest | Embedded/bitbake/lib/bb/providers.py:118-166 | The preferred file is the match of the highest layer priority and, within it, of the lowest default preference, the earliest on ties. |
| Providers.PickIsUnique | Embedded/bitbake/lib/bb/providers.py:118-216 | The settings and the ranking determine one file for a name, or that none may be used. |
| Providers.HighestPreferenceIff | Embedded/bitbake/lib/bb/providers.py:118-166 | The preferred file has the highest default preference of the matches of its layer priority exactly if these all have the same. |
| Providers.LowerIsPreferred | Embedded/bitbake/lib/bb/providers.py:118-166 | Two matching files of one priority, the first with preference 10, the second with 0: the second is preferred. |
| Providers.CollateByName | Embedded/bitbake/lib/bb/providers.py:251-257 | Every provider is listed under its own name, in order, and no name is empty. |
| Providers.SelectProviders | Embedded/bitbake/lib/bb/providers.py:237-293 | `_filterProviders`: either every name has its pick and the result is arranged from them, or a required version is missing and only what was preferred for earlier names is returned; the list is sorted first. |
| Providers.OneFilePerName | Embedded/bitbake/lib/bb/providers.py:237-293 | A full selection has exactly one file for each name, none twice, all of them providers, and the file with the item's own name in front. |
| Providers.WithoutSettings | Embedded/bitbake/lib/bb/providers.py:199-293 | Without version settings each is the best of its name. |
| Providers.SelectionIsUnique | Embedded/bitbake/lib/bb/providers.py:246-249 | What `_filterProviders` returns, with or without a required version missing, is determined by which files provide the item, not by the order in which they come. |
| Providers.FilterProviders | Embedded/bitbake/lib/bb/providers.py:295-321 | `filterProviders` permutes the selection: the preferred name's file goes to the front if it is there, and it says whether it was. |
| Fifo.ReadingIsUnique | Embedded/bitbake/lib/bb/build.py:478-516 | A byte stream has one reading: its NUL-terminated messages and what follows the last NUL. |
| Fifo.FifoReader.ReadFifo | Embedded/bitbake/lib/bb/build.py:478-516 | Messages dispatched and the buffer make up the old buffer and the data, cut anywhere, inside a character too; the call raises exactly if one of their NUL-terminated messages does; the messages before that one have become their logging calls, and it stays at the head of the buffer. |
| Fifo.RaisesIff | Embedded/bitbake/lib/bb/build.py:484-514 | A message raises exactly if its bytes are not UTF-8, or its text is a debug message that fails; any other message becomes the call that its text asks for, although command and value are decoded one by one. |
| Fifo.DebugRaises | Embedded/bitbake/lib/bb/build.py:507-511 | A debug message fails exactly if it has no text or its level is no number. |
| Fifo.OthersDispatched | Embedded/bitbake/lib/bb/build.py:490-513 | No other message with a text does. |
| Fifo.DebugWithoutText | Embedded/bitbake/lib/bb/build.py:507-511 | The input `bbdebug x`: the call raises and the buffer keeps the message. |
| Fifo.UndecodableNote | Embedded/bitbake/lib/bb/build.py:484-489 | The input `bbnote`, a space and the byte 0xff: the call raises and the buffer keeps the message. |
| Utf8.DecodesIff | Embedded/bitbake/lib/bb/build.py:486-488 | Exactly the encodings of texts decode, in both directions. |
| Utf8.DecodeSplit | Embedded/bitbake/lib/bb/build.py:485-488 | Bytes can be split at an ASCII byte before they are decoded: the text is that of the parts, and there is none if one part has none. |
| Fifo.ReadChunks | Embedded/bitbake/lib/bb/build.py:478-516 | The same over any sequence of chunks: messages, calls and whether a message raises are functions of the joined stream. |
| Fifo.ChunkingDoesNotMatter | Embedded/bitbake/lib/bb/build.py:478-516 | Two ways to cut one stream give the same messages and the same rest. |
| Fifo.TwoChunkings | Embedded/bitbake/lib/bb/build.py:478-516 | Two readers of one stream, cut in two ways: the same calls, the same end, and without an exception the same buffer. |
| Fifo.MessagesArrive | Embedded/bitbake/lib/bb/build.py:478-516 | Whole messages come out as they went in. |
| Fifo.SplitJoined | Embedded/bitbake/lib/bb/build.py:485-490 | A message splits into the command before the first space and the value after it. |
| Fifo.CommandKnown | Embedded/bitbake/lib/bb/build.py:491-513 | Exactly the commands that are none of the eight known ones are reported as unrecognised. |
| ShellLogging.ShellCallArrives | Embedded/meta/classes-global/logging.bbclass:17-106 | What a logging function of the shell writes into the FIFO is dispatched as the function of the logger of the same name, with the same text; `bbdebug` with an empty level passes the check of the shell function and raises in the reader, and nothing else does. |
| ShellLogging.ShellTask | Embedded/bitbake/lib/bb/build.py:478-516 | A whole task: however its output is cut, the calls are those its log means, in order, and nothing is left. |
| Relocate.ChangeInterpreter | Embedded/scripts/relocate_sdk.py:72-112 | The first PT_INTERP segment gets the new path padded with NULs, or the call fails exactly if it does not fit, or nothing happens for system libraries and empty segments. |
| Relocate.RewriteSlots | Embedded/scripts/relocate_sdk.py:168-184 | Whole 4096-byte slots are rewritten in place, each from its own old text, or the call fails exactly if one does not fit. |
| Relocate.ChangeSection | Embedded/scripts/relocate_sdk.py:143-184 | One section header's turn, depending on nothing but its own area. |
| Relocate.SectionTurn | Embedded/scripts/relocate_sdk.py:134-141 | With areas apart, the header and the area that the loop reads are those of the untouched file. |
| Relocate.ChangeDlSysdirs | Embedded/scripts/relocate_sdk.py:114-209 | All sections together, the directories of the loader last, computed from the untouched file; the program exits exactly if one text does not fit its section, and otherwise fails exactly if there is a `.sysdirs` and no `.sysdirslen`. |
| Relocate.RelocateFile | Embedded/scripts/relocate_sdk.py:246-254 | A whole executable: skipped, relocated, given up or failed, each exactly under its condition; after success the bytes are determined. |
| Relocate.NothingElseChanges | Embedded/scripts/relocate_sdk.py:72-209 | Every byte outside the interpreter segment, `.ldsocache`, the whole slots of `.gccrelocprefix` and what is written for the directories stays. |
| Relocate.InterpReadsBack | Embedded/scripts/relocate_sdk.py:93-111 | The interpreter area reads back as the new path, padded to its old size. |
| Relocate.CacheReadsBack | Embedded/scripts/relocate_sdk.py:155-167 | A `.ldsocache` area reads back as its own text with the prefix replaced, padded. |
| Relocate.SlotReadsBack | Embedded/scripts/relocate_sdk.py:168-184 | So does each whole slot of `.gccrelocprefix`. |
| PrefixText.PaddedReadsBack | Embedded/scripts/relocate_sdk.py:108-110 | A C program reads a padded text without inner NULs as it was given. |
| PrefixText.SubstituteGlues | Embedded/scripts/relocate_sdk.py:157 | Replacing puts the prefix exactly where the markers are, taken from left to right, and leaves the pieces between them as they are. |
| PrefixText.PiecesOf | Embedded/scripts/relocate_sdk.py:157 | Every text is made of such pieces. |
| PrefixText.MovedReadsBack | Embedded/scripts/relocate_sdk.py:156-164 | A text padded with NULs fits again exactly if the new text leaves room for a NUL, and then a C program reads it with the prefix in the places of the markers. |
| Relocate.CacheMoves | Embedded/scripts/relocate_sdk.py:155-167 | So the path of the cache in a `.ldsocache` section moves with the prefix, or the program gives up exactly if there is no room for it. |
| Relocate.SlotMoves | Embedded/scripts/relocate_sdk.py:168-184 | So does the path in each slot of `.gccrelocprefix`. |
| Relocate.SlotsTooLong | Embedded/scripts/relocate_sdk.py:168-177 | The program gives up on that section exactly if one of its slots has no room. |
| PrefixText.NewDirs | Embedded/scripts/relocate_sdk.py:186-200 | The loop over the directories up to the first empty one, each with its prefix replaced, and the list of their lengths. |
| PrefixText.PathsBack | Embedded/scripts/relocate_sdk.py:186-203 | The new directories read back one by one, for any padding behind them. |
| PrefixText.PackReadsBack | Embedded/scripts/relocate_sdk.py:197-200 | A number packed into its width reads back if it fits. |
| PrefixText.PowerIs | Embedded/scripts/relocate_sdk.py:197-200 | The two widths hold numbers below 2 to the 32nd and to the 64th. |
| Relocate.DirsOverflow | Embedded/scripts/relocate_sdk.py:202-209 | `.sysdirs` is written beyond its end exactly if the new texts with their terminators are longer than the section, `.sysdirslen` exactly if it has no room for that many numbers. |
| Relocate.DirsReadBack | Embedded/scripts/relocate_sdk.py:185-209 | After a successful run `.sysdirs`, if it has room, reads back as its old texts with the prefix replaced, and `.sysdirslen` as the length of each. |
| Relocate.CrashesIff | Embedded/scripts/relocate_sdk.py:148-154 | Unless it has given up before, the script fails by itself exactly if some section is `.sysdirs` and none is `.sysdirslen`. |
| Elf.SameSection | Embedded/scripts/relocate_sdk.py:134-141 | Reading a section header depends on the bytes of the header table alone, in both classes and byte orders. |
| Elf.SameEntry | Embedded/scripts/relocate_sdk.py:118-126 | The header of the section names is read alike, inside the table or not. |
| RelocateLaws.ArchIff | Embedded/scripts/relocate_sdk.py:32-50 | The class of a file is told by its first and its fifth byte; anything else is left alone. |
| RelocateLaws.SectionNames | Embedded/scripts/relocate_sdk.py:148-168 | The names of the four sections as texts. |
| RelocateLaws.HeaderIsUnpacked | Embedded/scripts/relocate_sdk.py:52-70 | Every field of the file header that is used stands where the format string of its class puts it. |
| RelocateLaws.SegmentIsUnpacked | Embedded/scripts/relocate_sdk.py:72-90 | So do the fields of a program header. |
| RelocateLaws.SectionIsUnpacked | Embedded/scripts/relocate_sdk.py:114-139 | And those of a section header. |
| RelocateLaws.NumReversed | Embedded/scripts/relocate_sdk.py:38-42 | A number in one byte order is the reversed bytes in the other. |
| RelocateLaws.NameRead | Embedded/scripts/relocate_sdk.py:141 | The name of a section is the bytes of the string table from its place to the next NUL. |
| RelocateLaws.UnterminatedName | Embedded/scripts/relocate_sdk.py:141 | Without a NUL the last byte of the table is lost. |
| RelocateLaws.TablesFitIff | Embedded/scripts/relocate_sdk.py:72-139 | The tables can be read exactly if their entries have the sizes of the format strings and they lie in the file. |
| RelocateLaws.ApartIff | Embedded/scripts/relocate_sdk.py:91-209 | What the hypothesis that areas are apart says: no byte is in both. |
| RelocateLaws.InterpAreaIs | Embedded/scripts/relocate_sdk.py:91-111 | What the hypothesis on the interpreter says: if there is one, its segment lies in the file; that area is all that is written for it. |
| RelocateLaws.SectionAreaIs | Embedded/scripts/relocate_sdk.py:143-184 | A section is rewritten only if it has data of the program and one of the two names, and then within its bounds, of `.gccrelocprefix` only whole slots. |
| RelocateLaws.TabIs | Embedded/scripts/relocate_sdk.py:120-129 | The names come from the section that the header points to, which has to lie in the file. |
| RelocateLaws.DirsFormat | Embedded/scripts/relocate_sdk.py:197-209 | The lengths of the directories have the size of the format `L` or `Q`; the area of an edit is that of its data. |
| RelocateLaws.InterpCases | Embedded/scripts/relocate_sdk.py:91-111 | Nothing is done without an interpreter, with an empty one or one of the five system paths; otherwise the new path is refused exactly if it leaves no room for a NUL, and else written in the place of the old one. |
| DiskMonitor.Monitor.Check | Embedded/bitbake/lib/bb/monitordisk.py:195-258 | One `check` treats every key by its own state and sample; keys do not influence each other. |
| DiskHistory.CheckIff | Embedded/bitbake/lib/bb/monitordisk.py:195-258 | By what was measured and said before: a check warns exactly if the value is low and it is the first warning, the last one was at 0, or the value has fallen by more than the interval and nothing has been stopped; it stops exactly if something is low, nothing has been stopped, and the key does more than warn. |
| DiskHistory.EventLevels | Embedded/bitbake/lib/bb/monitordisk.py:215-258 | What a warning names is what was free. |
| DiskMonitor.SpaceWarningBound | Embedded/bitbake/lib/bb/monitordisk.py:215-220 | While some space is left, W warnings satisfy (W-1)*(interval+1) <= minimum-2; a key that stops tasks warns once at most. |
| DiskMonitor.InodeWarningBound | Embedded/bitbake/lib/bb/monitordisk.py:236-247 | The same bounds for inodes, with file systems that report none left out. |
| DiskMonitor.FullDiskWarnsEachTime | Embedded/bitbake/lib/bb/monitordisk.py:215-220 | With no space left at all, every check warns. |
| DiskMonitor.ApartIff | Embedded/bitbake/lib/bb/monitordisk.py:215-220 | Over all runs: two successive space warnings, the first at level a, are more than the interval apart exactly if a is not 0. |
| DiskMonitor.ZeroForgets | Embedded/bitbake/lib/bb/monitordisk.py:215-220 | After a warning at level 0 the next check warns exactly if it finds the space low. |
| DiskMonitor.StopsOnce | Embedded/bitbake/lib/bb/monitordisk.py:215-258 | Over any run a key stops the run queue at most once, by the space and the inode check together, and never if it only warns. |
| DiskMonitor.StopsIffLow | Embedded/bitbake/lib/bb/monitordisk.py:215-258 | It has done so exactly if some check found the key low. |
| DiskMonitor.StopKind | Embedded/bitbake/lib/bb/monitordisk.py:215-258 | HALT and only HALT stops running tasks. |

## Left out

The whole model:

* Reading and writing files and pipes, pickling, `/proc`, subprocesses, logging, events and progress;
  what such calls answer is a parameter.
* Several concurrent mergers, and crashes in the middle of a write.
* Small index, report and argument-parsing code, the web and user-interface parts, `codegen.py`, `event.py`
  and `persist_data.py`.

By component:

- TaskDatabase.TaskData.FailFn: the path with `halt`, which raises in the middle of the cascade, is not modelled; nor are `missing_list` and the messages.
- TaskDatabase.TaskData.RemoveTarget: the build and run dictionaries are one dictionary keyed by namespace and name, and `taskentries` is grouped by recipe.
- TaskDatabase.TaskData.AddTasks: `add_extra_deps`, `mcdepends` and the skip list are left out; a task-level dependency on a target removed before does not fail the recipe, as in the code.
- Resolution.ContainedAfter: the cause of a removal is an upper bound over all orders; the bound from below is `StarvedHasFailed`, and the exact condition, for the state in which the providers of a target are added, is in `AddProviderInternal` and `AddRProvider`.
- TaskDatabase.TaskData.AddUnresolved: `allowincomplete` is off; a removed target may have a provider, as `RemovedAndProvided` shows, so no claim is made that it has none.
- TaskDatabase.TaskData.AddProviderInternal: which files are eligible is part of the catalogue; the ignore patterns are a predicate on names.
- TaskChain.TasksBetween: which keys of the datastore are tasks is part of the graph.
- SignatureDeps.Generator.Generate: `build_dependencies` is a function of the name whose answers stay in a finite set of names; excluded and ignored variables are inside it.
- SignatureDeps.HashTask: the hash is left as the text that is hashed; the recipe's file name in the key of `basehash` is omitted.
- SiggenCodec.SiggenRecipeInfo.Restore: that equal values become one object is not visible on values; triples that `_save` never writes are not modelled.
- DataStore.DataSmart.SetVar: history, renamed variables, the tracking of override variables, and `appendVar` and `prependVar` on text are left out; `overrides` is a parameter, and names with newlines are not considered.
- DataStore.DataSmart.SetVarFlag: the update of `__exportlist`, which is in `ExportList` by itself, and the table of renamed variables are left out.
- ExportList.Dict.Export: of the flags of `__exportlist`, only its content is modelled.
- DataStore.DataSmart.GetVarFlag: expansion, default values, the caches of expanded values and of OVERRIDES, and applying queued operations are left out.
- DataStore.DataSmart.DelVarFlag: `delVarFlags` is left out, and so is `renameVar` but for the entries in `IndexShape`.
- DataStore.CopyAndUpdate: the set behind `__exportlist`, which is written through a copy, is in `ExportList` by itself.
- DataStore.TwoCopies: the same; through that set a name exported in one copy can reach the other.
- IndexShape.RenamedIsWellIndexed: the flags that are moved and the renaming of the overriding variables themselves are left out.
- DataStore.Layer.Find: a variable that is itself called `_data` is not considered.
- OverrideSelect.Select: which of several keys that can match is chosen is stated for single names only; that it is a key that can match is stated for all.
- ParsePool.CompletedDeliversAll: recipes taken from the cache, and the accounting of skipped and virtual recipes, are left out.
- ParseProgress.RunIsBounded: that timeouts come to an end is not claimed, since a full queue may time out for ever.
- ParsePool.ActSound: a process killed while its feeder thread holds the lock of the pipe is not modelled.
- LayerPriority.Collections.HandleCollections: a dependency cycle (endless recursion) and a dependency that is not enabled (KeyError) are excluded by hypothesis; parsing of the variables and the patterns is left out.
- ExtrasProgress.AllGetsCached: a process may be kept waiting for ever by merges and by others that take every number it tries; that it is not is not claimed.
- CacheMerge.MultiProcessCache.SaveExtras: the lock files themselves are not modelled, only that they exclude each other.
- CacheMerge.MultiProcessCache.SaveMerge: the several dictionaries of a class have one fixed number, as `CACHE_VERSION` guarantees.
- VirtualNames.RoundTrip: file and multiconfig names with colons are outside the promise.
- Ranking.FindLatest: `utils.vercmp` is any strict weak order.
- Ranking.FindPreferred: taking a version setting apart with a regular expression is a parameter.
- Providers.SelectProviders: that the caller's list is sorted in place is not visible on values; `filterProvidersRunTime` is left out.
- Providers.FilterProviders: `dataCache.preferred` is passed and returned.
- Fifo.FifoReader.ReadFifo: what `int` accepts is a parameter.
- ShellLogging.ShellTask: `printf` and its escapes are not modelled: a text is what is printed, without a NUL in it; a task that logs without a FIFO, and `exit`, are left out.
- Relocate.RelocateFile: a table entry of another size than the format's (0 without a section table) makes the script fail with an exception, and is excluded by hypothesis; all that is written stays in the file and apart from the rest that is read or written, so a `.sysdirs` that runs over its section into another one, or makes the file longer, is not followed further; the new prefix has no backslash, and the marker is taken literally, not as a regular expression; permissions are left out.
- Relocate.DirsReadBack: `struct.pack` raises for a length that its width cannot hold; here the number is then only not claimed to read back.
- DiskMonitor.Monitor.Check: parsing of the settings, devices and the usage event are left out; the monitor is enabled.

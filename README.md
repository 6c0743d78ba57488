# vscode-fossil: resource groups and command decisions, in Dafny

This project models two parts of the Fossil extension for VS Code and proves properties of the model.

**The status-grouping engine** (`src/resourceGroups.ts`):

- A `FossilResourceGroup` is the ordered list of file resources shown under one heading of the source-control view, plus an index from URI strings to resources.
  - The class keeps the list, the index's entries and the index's insertion order as fields.
  - `Valid()` ties the index to the list.
  - `updateResources`, `intersect` and `except` are loops that rebuild or delete from the index. Each is proved against a specification function of the prior list.
- `groupStatuses` routes every record of a status report into one of the conflict, staging, working and untracked groups, then replaces all four.
- `StashGroupManager` keeps one group per saved stash. On every refresh it disposes the groups of vanished stashes, creates groups for new ones and refills every listed group. Disposal is recorded in a ghost log, so "each vanished group is disposed exactly once" and "a surviving group is never disposed" are statements about that log.

**The decision logic of the command center** (`src/commands.ts`):

- Commit preconditions (`validateNoConflicts`), the commit sequence (`smartCommit` and the commit commands), merging (`isItOkayToMerge`, `mergeCommon`, `cherrypick`, `doMerge`), `undoOrRedo`, `branch` and `openRepository`.
- The file commands' group filters (`add`, `ignore`, `remove`, `stage`, `unstage`) and `revert`'s confirmation rule.
- The lookup order of `getSCMResource`, repository resolution in `createCommand`, and the diff views (`getLeftResource`, `getRightResource`, `getTitle`).

How the commands are modelled:

- The user's answers and the tool's results are parameters: oracle values.
- Every prompt, notice and call a command makes is an `Event` appended to the `trace` of a `CommandCenter` object. The source-control input box is a field of the same object.
- Each command is a method. Its postcondition says its trace and input box are exactly what a pure flow function of `CommandFlows` gives. The lemmas about the flows state what the source promises.

Two behaviours of the code are easy to misread; the model follows the code:

- **The commit guard never stops a commit.** `smartCommit` (src/commands.ts:869-874) negates the promises of `checkTrackedUnsavedFiles` and `validateNoConflicts`, not their answers, so the guard never fires. Both checks still run. Their prompts, removals and the scope they settle are in the model. But conflicts, a declined prompt or an empty scope do not prevent the commit: a STAGING_GROUP commit with nothing staged still reaches `repository.commit`. `CommandFlows.SmartCommitOnce` states what it does instead: with a message, the commit happens exactly once, whatever the checks concluded.
- **Routing follows report order.** Which group a record lands in depends only on the record and the prior staging group, but the code pushes resources in report order, so each group's list follows report order. `Bucketed` models that order.

## Model

| member | source | states |
|---|---|---|
| Resources.FileKeyInjective | src/resourceGroups.ts:170-171 | distinct paths under one root give distinct URI strings, so a group's index never merges two files |
| Resources.IndexOfKeys | src/resourceGroups.ts:111-117 | the index rebuilt from a list holds exactly the URI strings of that list |
| Resources.IndexOfEntries | src/resourceGroups.ts:114-116 | every index entry is a resource of the list, filed under its own URI string |
| Resources.IndexOfLast | src/resourceGroups.ts:114-116 | a URI string maps to the last resource of the list that has it |
| Resources.KeyOrderKeys | src/resourceGroups.ts:113-116 | the index's insertion order lists each of its keys exactly once |
| Resources.KeyOrderOfDistinct | src/resourceGroups.ts:113-116 | for a list without repeated URIs, the insertion order is the list's own order of URIs |
| Resources.MembersOfDistinct | src/resourceGroups.ts:126-129 | the index's values, in insertion order, give back a list without repeated URIs unchanged |
| Resources.MembersKeys | src/resourceGroups.ts:126-129 | the index's values never repeat a URI, cover exactly the list's URIs and are all members of the list |
| Resources.ValuesInFilterOut | src/resourceGroups.ts:134-137 | reading the values after deleting keys equals filtering the values read before, in the same order |
| Resources.WithoutMembers | src/resourceGroups.ts:133-138 | filtering by URI keeps exactly the resources whose URI is not excluded |
| Resources.WithoutDistinct | src/resourceGroups.ts:133-138 | filtering by URI keeps a list free of repeated URIs |
| Resources.RegroupedKeys | src/resourceGroups.ts:122-125 | moving resources to another group keeps their URIs, and keeps them distinct |
| ResourceGroups.Intersected | src/resourceGroups.ts:119-131 | reference definition of the list `intersect` leaves: the given resources moved into the group, then the prior members whose URI they do not carry, in index order |
| ResourceGroups.Excepted | src/resourceGroups.ts:133-138 | reference definition of the list `except` leaves: the prior members, in index order, whose URI is not among the excluded ones |
| ResourceGroups.FossilResourceGroup.constructor | src/resourceGroups.ts:94-105 | a new group is empty and valid, with the given id and label |
| ResourceGroups.FossilResourceGroup.Is | src/resourceGroups.ts:107-109 | `is(id)` tests the group's id; `MovedResourcesAnswerIs` states what it answers after `intersect` |
| ResourceGroups.FossilResourceGroup.GetResource | src/resourceGroups.ts:78-80 | the lookup finds a resource iff some listed resource has the URI, and then returns the last such resource |
| ResourceGroups.FossilResourceGroup.IncludesUri | src/resourceGroups.ts:81-83 | the index has the URI iff some listed resource has it |
| ResourceGroups.FossilResourceGroup.IncludesDir | src/resourceGroups.ts:84-92 | the scan answers true iff some indexed URI string, equally some listed resource's URI, starts with the prefix |
| ResourceGroups.FossilResourceGroup.UpdateResources | src/resourceGroups.ts:111-117 | the list becomes exactly the given resources, in order, and the index is rebuilt to match |
| ResourceGroups.FossilResourceGroup.Forget | src/resourceGroups.ts:122-123 | one deletion removes the resource's URI from the index and from its insertion order, and leaves the list alone |
| ResourceGroups.FossilResourceGroup.Intersect | src/resourceGroups.ts:119-131 | the new list is the given resources, moved into this group, then the prior members they did not replace, in index order |
| ResourceGroups.FossilResourceGroup.Except | src/resourceGroups.ts:133-138 | the new list is the prior members (in index order) whose URI is not among the excluded resources |
| Resources.LastWithKey | src/resourceGroups.ts:114-116 | among the resources with a URI, the index keeps the last one |
| ResourceGroups.WithoutOrdered | src/resourceGroups.ts:134-137 | deleting keys never reorders the members that stay |
| ResourceGroups.IntersectedMembership | src/resourceGroups.ts:119-131 | without repeated URIs: the given resources first, moved into the group and in order, then exactly the prior members whose URI they do not carry; no URI repeats; all URIs of both survive |
| ResourceGroups.IntersectedExample | src/resourceGroups.ts:119-131 | a group holding [B, C] intersected with [A, B'] becomes [A, B', C], with a single B |
| ResourceGroups.ExceptedMembership | src/resourceGroups.ts:133-138 | exactly the prior members whose URI is not among the excluded ones remain, in prior order: nothing is added and nothing else leaves |
| ResourceGroups.ExceptedExample | src/resourceGroups.ts:133-138 | [A, B, C] except [B] becomes [A, C] |
| ResourceGroups.MovedResourcesAnswerIs | src/resourceGroups.ts:119-125 | the resources `intersect` moves answer the group's `is` test, and the rest are prior members |
| ResourceGroups.IntersectThenExcept | src/resourceGroups.ts:119-138 | moving resources in and then out again leaves the prior members they had not replaced |
| StatusGrouping.GroupStatuses | src/resourceGroups.ts:141-186 | all four groups are replaced: each holds, in report order, the records routed to it, with routing read from staging as it was before the call |
| StatusGrouping.Route | src/resourceGroups.ts:151-165 | EXTRA records go to untracked and CONFLICT records to conflict; any other record goes to staging iff its URI was staged |
| StatusGrouping.RenameUri | src/resourceGroups.ts:173-175 | a record's rename source becomes a file URI under the root only when it is present and non-empty |
| StatusGrouping.Bucketed | src/resourceGroups.ts:169-180 | reference definition of each of the four lists: the resources made, in report order, from the records routed to that group |
| StatusGrouping.BucketedMembers | src/resourceGroups.ts:169-180 | a resource is in a group exactly when it was made, for that group, from a record that routes there |
| StatusGrouping.BucketedSizes | src/resourceGroups.ts:169-185 | every record yields exactly one resource: the four groups together are as long as the report |
| StatusGrouping.KeyDeterminesRecord | src/resourceGroups.ts:170-171 | with distinct paths in the report, a URI string identifies its record |
| StatusGrouping.BucketsDisjoint | src/resourceGroups.ts:169-185 | with distinct paths in the report, no URI is in two of the four groups |
| StatusGrouping.RecordPlacement | src/resourceGroups.ts:151-165 | EXTRA lands in untracked and CONFLICT in conflict even when staged; any other status lands in staging iff its URI was staged before, and in working otherwise |
| StatusGrouping.NothingStaged | src/test/suite/test_status.ts:120-127 | with nothing staged, staging stays empty and every record that is neither EXTRA nor CONFLICT lands in working |
| StatusGrouping.StagingIsSticky | src/resourceGroups.ts:162-164 | a MODIFIED record whose URI was staged is staged again, although its status alone would route it to working |
| StashGroups.NatToString | src/resourceGroups.ts:224 | a stash id renders as a non-empty string of decimal digits |
| StashGroups.NatToStringInjective | src/resourceGroups.ts:224 | distinct stash ids render differently |
| StashGroups.StashGroupId | src/resourceGroups.ts:224 | a new stash group's id is `stash-` followed by the stash id's digits |
| StashGroups.StashGroupIdInjective | src/resourceGroups.ts:224 | `stash-<id>` group ids are equal iff the stash ids are |
| StashGroups.FormatStashLabel | src/resourceGroups.ts:254-257 | a label starts with `Stash ` |
| StashGroups.StashLabelShowsComment | src/resourceGroups.ts:254-257 | a label ends with the stash's comment, or with `(no message)` when the comment is missing or empty |
| StashGroups.StashLabelIdentifiesStash | src/resourceGroups.ts:254-257 | two stashes with the same label have the same id |
| StashGroups.FilesFor | src/resourceGroups.ts:235 | a stash's files are its entry in the map, or none when the map has no entry |
| StashGroups.StashResource | src/resourceGroups.ts:236-245 | a stashed file becomes a resource of its group at the file's URI under the root, with its status, class `EDITED` and no rename |
| StashGroups.FirstColon | src/resourceGroups.ts:256 | in a label the id's digits run from position 6 up to the first colon |
| StashGroups.StashResourcesShape | src/resourceGroups.ts:235-245 | a stash group lists one resource per stashed file, in file order: its own group, the file's URI and status, class `EDITED`, no rename; distinct paths never collapse |
| StashGroups.RetainedVanishedMembers | src/resourceGroups.ts:211-216 | the registered ids split into those still listed and those that vanished |
| StashGroups.RetainedDistinct | src/resourceGroups.ts:211-216 | the surviving ids keep being listed once each |
| StashGroups.VanishedDistinct | src/resourceGroups.ts:211-216 | each vanished id is listed once |
| StashGroups.FreshIdsMembers | src/resourceGroups.ts:219-232 | the ids registered anew are exactly the listed ids not registered before, each once |
| StashGroups.FirstWithIdAt | src/resourceGroups.ts:219-231 | a new group is labelled from the first stash in the list with its id |
| StashGroups.ArrangedDone | src/resourceGroups.ts:219-232 | after the lookups, the registration order is the old order followed by the fresh ids, and every listed id is registered |
| StashGroups.ArrangedFound | src/resourceGroups.ts:220-222 | a lookup that finds the stash's group changes nothing |
| StashGroups.ArrangedCreated | src/resourceGroups.ts:222-232 | a lookup that misses registers a new group, labelled from this stash, at the end of the order |
| StashGroups.Registering | src/resourceGroups.ts:226-231 | registering a well-formed group under a fresh id keeps every group well formed and filled |
| StashGroups.DisposedDistinct | src/resourceGroups.ts:211-216 | vanished groups are disposed in order, each once, and a surviving group is never disposed |
| StashGroups.PrunedIndexed | src/resourceGroups.ts:209-216 | the first loop of a refresh leaves consistent bookkeeping: order, registry and disposal log |
| StashGroups.RegisteredIndexed | src/resourceGroups.ts:218-248 | the second loop leaves consistent bookkeeping, registers every listed stash, and appends the new ids in first-seen order |
| StashGroups.PrunedKnown | src/resourceGroups.ts:209-220 | after the first loop only listed stashes stay registered, and the same ids count as new |
| StashGroups.Reconciled | src/resourceGroups.ts:204-249 | a whole refresh registers exactly the listed stashes: survivors first in their old order, then new ids in first-seen order; vanished groups are disposed in registration order |
| StashGroups.ReconciledGroups | src/resourceGroups.ts:219-232 | survivors keep their group object, and each new group is labelled from its first stash |
| StashGroups.StashGroupManager.constructor | src/resourceGroups.ts:197-199 | a new manager has no groups and has disposed nothing |
| StashGroups.StashGroupManager.UpdateStashGroups | src/resourceGroups.ts:204-249 | afterwards the registry's ids are the listed stash ids; survivors keep their groups; vanished groups are disposed once each and removed; new groups are labelled from their stash; every group holds its stash's files |
| StashGroups.StashGroupManager.RegisterStashes | src/resourceGroups.ts:218-248 | the second loop creates missing groups, refills every listed one and disposes nothing |
| StashGroups.StashGroupManager.RegisterOne | src/resourceGroups.ts:219-248 | one pass looks the stash's group up or creates it, refills it, and keeps earlier groups |
| StashGroups.StashGroupManager.GetOrCreate | src/resourceGroups.ts:220-232 | the stash's group is returned: the registered one if any, else a fresh one registered last |
| StashGroups.StashGroupManager.Create | src/resourceGroups.ts:222-231 | a fresh group with id `stash-<id>` and the stash's label is registered at the end |
| StashGroups.StashGroupManager.Refill | src/resourceGroups.ts:234-247 | after the refill, this stash's group and every group refilled before it hold their stash's files (none when the map has no entry) |
| StashGroups.StashGroupManager.RemoveVanished | src/resourceGroups.ts:209-216 | exactly the vanished stashes' groups are disposed, in registration order, and unregistered |
| StashGroups.StashGroupManager.PruneOne | src/resourceGroups.ts:211-215 | one pass drops and disposes the group of a vanished stash, and keeps a listed one |
| StashGroups.StashGroupManager.Dispose | src/resourceGroups.ts:262-267 | every group is disposed once, in registration order, and the registry is emptied |
| StashGroups.StashGroupManager.GetGroups | src/resourceGroups.ts:272-274 | one group per registered stash, in registration order: the i-th is the group of the i-th registered stash; every registered group appears, none twice, and nothing else does |
| StashGroups.ReconcileExample | src/resourceGroups.ts:204-249 | with stashes {1, 2} registered, a refresh listing {2, 3} disposes 1, keeps 2 and registers 3 |
| CommandViews.GetLeftResource | src/commands.ts:177-198 | there is no left side exactly for ADDED, IGNORED, UNTRACKED and UNMODIFIED files and for renames without a source; otherwise it is the recorded original |
| CommandViews.GetRightResource | src/commands.ts:200-227 | the right side is always at the file's path: the merged version for an unresolved merge of an existing file, an empty document for a deleted or missing one, and the file itself otherwise |
| CommandViews.ShowsMerge | src/commands.ts:201-205 | the right side shows the merged version exactly for an unresolved merge of a file that is neither MISSING nor DELETED |
| CommandViews.Basename | src/commands.ts:230 | the base name is the part of the path after its last `/` |
| CommandViews.TitleSuffix | src/commands.ts:231-253 | a suffix exists exactly for unresolved merges and for the six changed statuses |
| CommandViews.GetTitle | src/commands.ts:229-256 | the title is empty exactly for files that are neither changed nor in an unresolved merge; otherwise it starts with the base name |
| CommandViews.TitledViewsCompare | src/commands.ts:177-256 | for a titled view of a workspace file, the right side comes from the tool exactly for merges and for deleted or missing files, and a deleted or missing file's left side is its recorded original |
| CommandViews.AcceptedGroups | src/commands.ts:495-659 | the group tests of the file commands: `add` and `ignore` take untracked resources (496, 529), `remove` working ones (558), `stage` working, merge and untracked ones (620-623), `unstage` staged ones (658) |
| CommandViews.Selected | src/commands.ts:495-497 | the filter keeps exactly the accepted resources among the arguments, and nothing else |
| CommandViews.SelectedCounts | src/commands.ts:495-497 | each accepted resource is kept as often as it is passed, and no other resource is kept |
| CommandViews.SelectedInOrder | src/commands.ts:495-497 | any two kept resources occur among the arguments in the same relative order |
| CommandViews.SelectedAppend | src/commands.ts:495-497 | filtering a concatenation gives the filtered parts one after the other |
| CommandViews.SelectedOne | src/commands.ts:495-497 | one argument is kept iff it is an accepted resource; with `SelectedAppend` the answer is fixed for every list, repeats included |
| CommandViews.FileCommandFilter | src/commands.ts:481-671 | `add`, `ignore`, `remove`, `stage` and `unstage` act only on resources of their accepted groups, among the arguments or else the resource under the cursor |
| CommandViews.UrisOf | src/commands.ts:503 | the repository receives the targets' URIs, in order |
| CommandViews.Partition | src/commands.ts:701-704 | partitioning splits the resources into those that satisfy the test and those that do not |
| CommandViews.PartitionInOrder | src/commands.ts:701-704 | each part holds its resources as often as the input does, and any two of them occur in the input in the same relative order |
| CommandViews.PartitionAppend | src/commands.ts:701-704 | partitioning a concatenation gives each part of the first list followed by the same part of the second |
| CommandViews.PartitionOne | src/commands.ts:701-704 | one resource goes to the part its test picks; with `PartitionAppend` both parts are fixed for every list, repeats included |
| CommandViews.PlanRevert | src/commands.ts:682-711 | revert acts on exactly the dirty resources among the arguments, or else the cursor's resource; those not ADDED need a confirmation and the ADDED ones are listed beside them |
| CommandViews.RevertAsksUnlessAllAdded | src/commands.ts:701-720 | a revert needs a confirmation exactly when some dirty target is not ADDED |
| Resources.Lookup | src/resourceGroups.ts:78-80 | a group's lookup finds a resource exactly when one is listed with the URI, and then it is the last listed resource with that URI |
| CommandViews.FirstHolder | src/commands.ts:1445-1451 | the first group in the lookup order that lists the URI |
| CommandViews.FirstLookup | src/commands.ts:1445-1451 | the groups are asked in turn, and the first that lists the URI answers |
| CommandViews.GetScmResource | src/commands.ts:1425-1454 | a resource is found only for a given (or active-editor) URI with scheme `file` or `fossil`, without a query, inside a repository; for every such URI the answer is that of the first of working, staging, untracked, merge and conflict that lists the file |
| CommandViews.EmptySideHasNoResource | src/commands.ts:212-215 | the empty document shown for a deleted or missing file has no resource under the cursor |
| CommandViews.OriginalSideHasNoResource | src/commands.ts:177-198 | the recorded version shown on a diff's left side has no resource under the cursor |
| CommandViews.ToFossilUri | src/uri.ts:17-25 | the recorded version of a file is a `fossil-original` URI at the same path, whose query names that path |
| CommandViews.WorkingGroupFirst | src/commands.ts:1445-1446 | the working group answers whenever it lists the file |
| CommandViews.ConflictGroupLast | src/commands.ts:1445-1451 | a file listed only in the conflict group is found there, after the other four are asked |
| CommandViews.ResolveRepository | src/commands.ts:1380-1405 | a command needing a repository gets the one holding its first argument, else the only open one, else the user's pick, and is skipped without a pick; the user is asked iff neither of the first two exists |
| CommandViews.Dispatched | src/commands.ts:1397-1409 | a skipped command settles to success; otherwise the dispatch answers exactly the command's own outcome, success or failure, since the `try` never catches |
| CommandFlows.NoCommitConcat | src/commands.ts:885 | a sequence of events holds no commit iff neither of its parts does |
| CommandFlows.HasCode | src/commands.ts:1164-1166 | an error has a code exactly when it is a `FossilError` carrying that code, as the handlers test it |
| CommandFlows.SelectedAll | src/commands.ts:844 | `remove` applied to resources of its own group acts on all of them, in order |
| CommandFlows.FileCommandEvents | src/commands.ts:481-671 | a file command makes at most one call, with the targets' URIs, and makes it iff there are targets and a repository holds the first |
| CommandFlows.Basenames | src/commands.ts:706-711 | the prompt lists, in order, each resource's base name |
| CommandFlows.RevertEvents | src/commands.ts:678-728 | a revert makes at most a prompt and a call, and does nothing exactly when it has no targets, or when it needs no prompt and no repository holds the targets |
| CommandFlows.RevertConfirmsDiscards | src/commands.ts:701-727 | revert asks iff some target would lose changes, and reverts all targets iff there are some, the confirmation (when needed) was given and a repository holds them |
| CommandFlows.UnsavedCheck | src/commands.ts:762-794 | with unsaved files the user is asked first; saving adds the files; the check refuses only on cancel |
| CommandFlows.MissingOf | src/commands.ts:829-832 | exactly the MISSING resources of the working group |
| CommandFlows.MissingInOrder | src/commands.ts:829-832 | each MISSING resource is removed as often as the working group lists it, and any two of them in the group's relative order |
| CommandFlows.MissingAppend | src/commands.ts:829-832 | the missing files of a concatenation are those of each part in turn, and one resource is listed iff it is MISSING: the list is fixed exactly |
| CommandFlows.ScopeCheck | src/commands.ts:815-826 | an unknown scope is resolved, with at most one prompt; declining stops with the scope still unknown |
| CommandFlows.MissingCheck | src/commands.ts:828-846 | the missing-file step leaves the scope as it is |
| CommandFlows.EmptyCheck | src/commands.ts:848-859 | the commit may go on iff the scope has something to commit |
| CommandFlows.NothingToCommit | src/commands.ts:848-856 | nothing to commit exactly when neither group has changes, or the scope is the staging group and nothing is staged, or the scope is the working group and it has no changes |
| CommandFlows.Validation | src/commands.ts:796-862 | conflicts stop the commit with one warning, no prompt and the scope unchanged; a merge gives scope ALL and success with nothing else done |
| CommandFlows.ValidationScope | src/commands.ts:815-826 | the working-group prompt appears iff the scope is unknown, the working group has changes and nothing is staged; declining stops; accepting gives WORKING_GROUP; otherwise unknown becomes STAGING_GROUP |
| CommandFlows.MissingCheckSteps | src/commands.ts:833-845 | the confirmation comes first; declining stops there; accepting removes the missing files next |
| CommandFlows.ValidationMissing | src/commands.ts:828-846 | in a working-group commit with missing files the user is asked; declining stops before any call; accepting removes exactly the missing files |
| CommandFlows.ValidationEmptyCheck | src/commands.ts:806-861 | once nothing else stopped it, the commit may go on iff the resolved scope has changes by the counts taken before any prompt, and a notice is given iff it may not |
| CommandFlows.UnsavedCheckNeverCommits | src/commands.ts:745-795 | the unsaved-file check neither commits nor asks for a branch name |
| CommandFlows.MissingCheckNeverCommits | src/commands.ts:828-846 | the missing-file step neither commits nor asks for a branch name |
| CommandFlows.ValidationNeverCommits | src/commands.ts:796-862 | `validateNoConflicts` neither commits nor asks for a branch name |
| CommandFlows.PreambleNeverCommits | src/commands.ts:869-879 | nothing `smartCommit` does before its commit call commits |
| CommandFlows.SmartCommitFlow | src/commands.ts:864-888 | `smartCommit` leaves the scope that `validateNoConflicts` settled |
| CommandFlows.SmartCommitOnce | src/commands.ts:869-887 | with a message, the commit is called exactly once, last, whatever the checks concluded, with the settled scope and the branch name only for a branch commit; without one, nothing is committed and the answer is false |
| CommandFlows.BranchNameOnlyForBranchCommits | src/commands.ts:875-877 | the branch name is asked for iff the commit is a branch commit |
| CommandFlows.CommitWithAnyInputFlow | src/commands.ts:890-905 | the prompt is seeded with the box's text; the box ends empty iff it was empty or the commit went ahead, and otherwise keeps its text; a commit failure is passed on |
| CommandFlows.CommitWithInputFlow | src/commands.ts:912-922 | the input box's text is committed as it stands, and the box is emptied iff the commit went ahead |
| CommandFlows.CommitWithInputCommitsBox | src/commands.ts:912-917 | `commitWithInput` always ends with a commit of the box's text, even an empty one, with no branch |
| CommandFlows.OptionsOf | src/commands.ts:907-942 | only `commitBranch` uses a branch; `commit` and `commitBranch` start from an unknown scope, `commitStaged` from STAGING_GROUP and `commitAll` from ALL |
| CommandFlows.UndoOrRedoFlow | src/commands.ts:948-962 | the dry run comes first; the real action runs iff the dry run succeeded and the user confirmed what it showed; a warning appears iff a step failed for lack of undo history |
| CommandFlows.BranchFlow | src/commands.ts:1033-1056 | the name is asked for first, and nothing follows when none or an empty one is given; an existing-branch error leads to the warning; the command fails only through the call made after that warning is answered, and once an answer is given it fails exactly when that call does; reopening runs `newBranch` again and updating runs `update`, each as the last event |
| CommandFlows.OpenRepositoryFlow | src/commands.ts:297-318 | the open fails iff it failed with any error but `OperationMustBeforced`; the forced open runs iff that error came and the user agreed |
| CommandFlows.OkayToMergeFlow | src/commands.ts:1070-1082 | merging may go on iff neither check objects; the second check runs only after the first passes; a refusal focuses the view; nothing is called |
| CommandFlows.Caught | src/commands.ts:1163-1174 | untracked files in the way are reported and the error dropped; any other error is rethrown, with nothing shown |
| CommandFlows.HandlerEvents | src/commands.ts:1163-1171 | the handler shows the untracked files in the way exactly for an `UntrackedFilesDiffer` error that names them, and nothing otherwise |
| CommandFlows.DoMergeFlow | src/commands.ts:1134-1175 | `doMerge` starts with the merge call |
| CommandFlows.MergeWithUnresolvedNeverCommits | src/commands.ts:1143-1144 | unresolved files: a warning with their number, no commit, success |
| CommandFlows.CleanMergeCommits | src/commands.ts:1145-1161 | a clean merge on a branch runs the commit flow with a message prompt seeded by the merge's description, empties the box iff that commit went ahead, and hands a commit failure to the handler |
| CommandFlows.MergeFailures | src/commands.ts:1163-1173 | a failed merge never commits; untracked files in the way are reported and the command succeeds; any other error is rethrown |
| CommandFlows.Chosen | src/commands.ts:1098 | a pick counts only when it is a non-empty name |
| CommandFlows.PickStage | src/commands.ts:1089-1098 | the merge checks come first; the listing and the pick follow iff they pass; the merge follows iff a non-empty candidate was also picked |
| CommandFlows.PickAndMergeFlow | src/commands.ts:1084-1132 | a refused merge ends after the checks; without a pick, or with an empty one, the command succeeds with the box unchanged |
| CommandFlows.MergeNeedsPermissionAndPick | src/commands.ts:1084-1132 | a merge call happens iff both checks pass and the user picks a non-empty candidate |
| CommandFlows.PickedCandidateMerged | src/commands.ts:1098-1099 | when both checks pass and a candidate is picked, that candidate is merged with the command's own action, and the command ends with `doMerge`'s events, result and input box |
| Commands.CommitOptions.constructor | src/commands.ts:867 | options start with the given scope and branch flag |
| Commands.CommandCenter.constructor | src/commands.ts:93-122 | a command center starts with an empty trace and the given input box |
| Commands.CommandCenter.RunFileCommand | src/commands.ts:481-671 | `add`, `ignore`, `remove`, `stage` and `unstage` do what `FileCommandEvents` says, and leave the box alone |
| Commands.CommandCenter.RevertFiles | src/commands.ts:678-728 | `revert` does what `RevertEvents` says |
| Commands.CommandCenter.CheckTrackedUnsavedFiles | src/commands.ts:745-795 | the unsaved-file check does and answers what `UnsavedCheck` says |
| Commands.CommandCenter.ResolveScope | src/commands.ts:815-826 | scope resolution sets the options' scope as `ScopeCheck` says |
| Commands.CommandCenter.ConfirmMissing | src/commands.ts:828-846 | the missing-file step does and answers what `MissingCheck` says |
| Commands.CommandCenter.InformIfEmpty | src/commands.ts:848-859 | the empty-change check, on counts taken earlier, does and answers what `EmptyCheck` says |
| Commands.CommandCenter.CheckMissingThenEmpty | src/commands.ts:828-859 | the missing-file step, then the empty-change check unless it stopped |
| Commands.CommandCenter.RunScopedChecks | src/commands.ts:814-860 | the checks of a non-merge commit, with the scope settled in place |
| Commands.CommandCenter.ValidateNoConflicts | src/commands.ts:796-862 | `validateNoConflicts` settles the options' scope, and does and answers what `Validation` says |
| Commands.CommandCenter.SmartCommit | src/commands.ts:864-888 | `smartCommit` does, answers and leaves the scope as `SmartCommitFlow` says |
| Commands.CommandCenter.CommitWithAnyInput | src/commands.ts:890-905 | `commitWithAnyInput` does and leaves the box as `CommitWithAnyInputFlow` says |
| Commands.CommandCenter.CommitCommandRun | src/commands.ts:907-942 | `commit`, `commitStaged`, `commitAll` and `commitBranch` run `commitWithAnyInput` with their options |
| Commands.CommandCenter.CommitWithInput | src/commands.ts:912-922 | `commitWithInput` does and leaves the box as `CommitWithInputFlow` says |
| Commands.CommandCenter.UndoOrRedoRun | src/commands.ts:948-962 | `undoOrRedo` does what `UndoOrRedoFlow` says |
| Commands.CommandCenter.BranchRun | src/commands.ts:1033-1056 | `branch` does and answers what `BranchFlow` says |
| Commands.CommandCenter.OpenRepository | src/commands.ts:297-318 | `openRepository` does and answers what `OpenRepositoryFlow` says |
| Commands.CommandCenter.IsItOkayToMerge | src/commands.ts:1070-1082 | `isItOkayToMerge` does and answers what `OkayToMergeFlow` says |
| Commands.CommandCenter.Handle | src/commands.ts:1163-1174 | the handler shows and answers what `Caught` says |
| Commands.CommandCenter.DoMerge | src/commands.ts:1134-1175 | `doMerge` does and leaves the box as `DoMergeFlow` says |
| Commands.CommandCenter.PickCandidate | src/commands.ts:1089-1098 | the checks, listing and pick before a merge, as `PickStage` says; it goes on only with a non-empty pick |
| Commands.CommandCenter.PickAndMerge | src/commands.ts:1084-1132 | the checks, the pick and the merge, as `PickAndMergeFlow` says |
| Commands.CommandCenter.MergeCommon | src/commands.ts:1084-1101 | `mergeCommon` lists the branches, asks for one and merges it only when a non-empty name is picked, as `PickAndMergeFlow` says |
| Commands.CommandCenter.CherrypickRun | src/commands.ts:1121-1132 | `cherrypick` lists the check-ins, asks for one and cherry-picks it only when a non-empty one is picked, as `PickAndMergeFlow` says |

## Left out

- URIs are a scheme and a path, and an editor URI adds a query. VS Code's `Uri` parsing and `fsPath` are not modelled. The diff views call `toFossilUri` without a `ref`, so its JSON query names only the file's path; the model keeps that path, taking `fsPath` to be the URI's path.
- `path.join` and `path.basename` are modelled without normalisation. `.` and `..` segments, doubled separators and trailing slashes are not resolved.
- `FossilResource`, `Status`, `MergeStatus`, `FileStatus`, `StashItem` and `CommitScope` come from files that are not part of this model. They are small datatypes here, with only the fields this code reads. `isDirtyStatus` is a parameter, the set of dirty statuses.
- The VS Code resource group behind each `FossilResourceGroup` (`createResourceGroup`, `hideWhenEmpty`, `disposable`) is represented only by `resourceStates`. Disposing a group is an entry in the manager's ghost log.
- `createEmptyStatusGroups` and `isResourceGroup` are not modelled: the first only calls four constructors, and the second is a type test for the editor.
- `getRepository` is an oracle: the file commands take a flag saying whether a repository holds the first target, and `getSCMResource` takes a function from URIs to repositories.
- `checkTrackedUnsavedFiles` starts from the unsaved documents it would find. Discovering editor documents and `repository.ls` are left out, because they read the live editor and run the tool.
- The missing-file prompt of `validateNoConflicts` shows workspace-relative paths. The model shows the files' URIs instead, because `mapResourceToWorkspaceRelativePath` is not part of this model.
- `humanise.describeMerge` is not part of this model. The seeded commit message is the pair of the current branch and the merged revision.
- Concurrency: the calls that the source does not await are modelled as running to completion where they start, in program order. These are the two checks in `smartCommit`, the forced open, and the notices. Interleavings are not modelled.
- UI plumbing (opening files and diffs, logs, `openUi`, `showOutput`, `revertChange`, the other commands), command registration and localisation are left out. Message texts are represented by prompt and notice constructors.
- The error prompt in `createCommand`'s `catch` is not modelled: `return result` hands back a promise without awaiting it, so that `catch` never runs. `CommandViews.Dispatched` states this.
- `revertAll`, `clean`, `clone` (and its credential rewrite) and the version check in `init` are outside the modelled core. `deleteResources`, `update`, `branchChange`, `pull`, `push` and the other repository commands are outside it too.
- Tool and repository calls (`repository.*`, `this.fossil.*`) are events in the trace. Where a result decides what follows, it is an oracle parameter; their effects on the repository are not modelled.
- Some calls are taken to succeed, because the model has no result for them: `repository.ignore`, `add`, `remove`, `stage` and `unstage` in the file commands (src/commands.ts:506, 539, 568, 633, 668), `repository.revert` (725), saving and adding the unsaved files (788-789), the removal of missing files (844), `getBranches` (1093) and `getLogEntries` (1126). In the file commands, `revert`, `merge`, `integrate` and `cherrypick`, a failure there rejects the command in the source, while in the model the command goes on. Saving and adding (788-789) and the removal (844) run inside `checkTrackedUnsavedFiles` and `validateNoConflicts`, whose promises `smartCommit` does not await, so there a failure never stops the commit either. But after a failed removal `validateNoConflicts` stops, and the "no changes" notice it would give next is not shown, while the model still records it.
- `RemoveMissing`: the `remove` command that `validateNoConflicts` runs is taken to find its repository, since the missing files come from that repository's working group.
- Intersect: the source regroups the caller's own resource objects in place (`res.resourceGroup = this`), so any other list holding them, such as the group they leave, sees the new group at once. The model regroups copies; the caller's sequence is unchanged and this aliasing is not captured.
- CommandFlows.DoMergeFlow: its own contract only fixes the first event. What follows is stated by `MergeWithUnresolvedNeverCommits`, `CleanMergeCommits` and `MergeFailures`, case by case. A merge with no current branch, or an empty one, ends after the merge call; no lemma states that case separately.

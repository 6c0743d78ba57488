/**
 * The command sequences of the extension as specifications: for the answers the user
 * gives and the results the tool returns, what each command asks, tells and calls, in
 * order, and how it ends. Calls that the source starts without awaiting are taken to run
 * to completion where they start; only their sequential outcome is described.
 */
module CommandFlows {
  import opened Wrappers
  import opened Resources
  import opened CommandViews

  datatype CommitScope = UNKNOWN | ALL | STAGING_GROUP | WORKING_GROUP

  /** A thrown error: a `FossilError` with its code and, for some codes, file names; or anything else. */
  datatype Error = FossilError(fossilErrorCode: seq<char>, untrackedFilenames: Option<seq<Path>>) | OtherError

  /** `e instanceof FossilError && e.fossilErrorCode === code`. */
  predicate HasCode(e: Error, code: seq<char>) {
    e.FossilError? && e.fossilErrorCode == code
  }

  datatype UndoCommand = Undo | Redo
  datatype MergeAction = Merge | Integrate | Cherrypick
  datatype BranchExistsAction = Reopen | UpdateTo
  datatype UnsavedPick = SaveAllAndCommit | CommitStagedChanges

  /** What the user is asked; the answer comes back to the command. */
  datatype Prompt =
    | ConfirmUnsavedFiles(documents: seq<Uri>)
    | ConfirmCommitWorkingGroup
    | ConfirmDeleteMissingFiles(missing: seq<Uri>)
    | InputNewBranchName
    | InputCommitMessage(initial: seq<char>, mergeOf: Option<(seq<char>, seq<char>)>)
    | ConfirmUndoOrRedo(command: UndoCommand, description: seq<char>)
    | WarnBranchAlreadyExists(name: seq<char>)
    | ConfirmOpenNotEmpty(parent: Path)
    | CheckOutstandingMerge
    | CheckUnclean
    | PickBranch
    | PickCheckin
    | ConfirmDiscardChanges(discard: seq<Path>, added: seq<Path>)

  /** What the user is told, with no answer awaited. */
  datatype Notice =
    | WarnResolveConflicts
    | InformNoChangesToCommit
    | WarnUnresolvedFiles(count: nat)
    | ErrorUntrackedFilesDiffer(files: seq<Path>)
    | WarnNoUndoOrRedo(command: UndoCommand)
    | FocusScm

  /** Calls into the editor's documents, the repository and the tool. */
  datatype Call =
    | SaveDocuments(documents: seq<Uri>)
    | Files(kind: FileCommand, uris: seq<Uri>)
    | Revert(uris: seq<Uri>)
    | Commit(message: seq<char>, scope: CommitScope, branch: Option<seq<char>>)
    | MergeWith(revision: seq<char>, action: MergeAction)
    | UndoOrRedo(command: UndoCommand, dryRun: bool)
    | NewBranch(name: seq<char>)
    | Update(name: seq<char>)
    | OpenClone(file: Path, parent: Path)
    | OpenCloneForce(file: Path, parent: Path)
    | GetBranches
    | GetLogEntries

  datatype Event = Ask(prompt: Prompt) | Tell(notice: Notice) | Run(call: Call)

  predicate IsCommit(e: Event) {
    e.Run? && e.call.Commit?
  }

  ghost predicate NoCommit(events: seq<Event>) {
    forall i :: 0 <= i < |events| ==> !IsCommit(events[i])
  }

  lemma NoCommitConcat(a: seq<Event>, b: seq<Event>)
    ensures NoCommit(a + b) <==> NoCommit(a) && NoCommit(b)
  {
    forall i | 0 <= i < |a|
      ensures (a + b)[i] == a[i]
    {
    }
    forall i | 0 <= i < |b|
      ensures (a + b)[|a| + i] == b[i]
    {
    }
  }

  // ---------------------------------------------------------------------------
  // File commands

  /** When every argument is a resource the filter accepts, the filter keeps them all, in order. */
  lemma {:induction false} SelectedAll(rs: seq<Resource>, accept: Resource -> bool)
    requires forall r :: r in rs ==> accept(r)
    ensures Selected(FossilArgs(rs), accept) == rs
  {
    if rs != [] {
      assert rs == [rs[0]] + rs[1..];
      assert FossilArgs(rs)[1..] == FossilArgs(rs[1..]);
      SelectedAll(rs[1..], accept);
    }
  }

  /**
   * `add`, `ignore`, `remove`, `stage`, `unstage`: one call with the accepted resources'
   * URIs when there are some and a repository holds the first of them, and nothing otherwise.
   */
  function FileCommandEvents(kind: FileCommand, args: seq<Arg>, scm: Option<Resource>, repositoryFound: bool)
    : (events: seq<Event>)
    ensures |events| <= 1
    ensures events != [] <==> FileCommandTargets(kind, args, scm) != [] && repositoryFound
    ensures events != [] ==> events[0] == Run(Files(kind, UrisOf(FileCommandTargets(kind, args, scm))))
  {
    var targets := FileCommandTargets(kind, args, scm);
    if targets == [] || !repositoryFound then [] else [Run(Files(kind, UrisOf(targets)))]
  }

  /** The names the discard prompt lists: each resource's base name, in order. */
  function Basenames(rs: seq<Resource>): (names: seq<Path>)
    ensures |names| == |rs| && forall i :: 0 <= i < |rs| ==> names[i] == Basename(rs[i].uri.path)
  {
    seq(|rs|, i requires 0 <= i < |rs| => Basename(rs[i].uri.path))
  }

  /** `revert`: a confirmation for the targets that would lose changes, then the revert. */
  function RevertEvents(args: seq<Arg>, scm: Option<Resource>, dirty: set<Status>, confirmed: bool,
                        repositoryFound: bool): (evs: seq<Event>)
    ensures |evs| <= 2
    ensures evs == [] <==> PlanRevert(args, scm, dirty).targets == [] || (PlanRevert(args, scm, dirty).discard == [] && !repositoryFound)
  {
    var plan := PlanRevert(args, scm, dirty);
    if plan.targets == [] then []
    else
      var asked := if plan.discard != [] then [Ask(ConfirmDiscardChanges(Basenames(plan.discard), Basenames(plan.added)))] else [];
      if plan.discard != [] && !confirmed then asked
      else asked + (if repositoryFound then [Run(Revert(UrisOf(plan.targets)))] else [])
  }

  /**
   * A revert asks exactly when some dirty target would lose changes, and reverts all dirty
   * targets unless that confirmation is declined or no repository holds them.
   */
  lemma RevertConfirmsDiscards(args: seq<Arg>, scm: Option<Resource>, dirty: set<Status>, confirmed: bool,
                               repositoryFound: bool)
    ensures var events := RevertEvents(args, scm, dirty, confirmed, repositoryFound);
      var plan := PlanRevert(args, scm, dirty);
      && (Ask(ConfirmDiscardChanges(Basenames(plan.discard), Basenames(plan.added))) in events <==>
            plan.targets != [] && plan.discard != [])
      && (Run(Revert(UrisOf(plan.targets))) in events <==>
            plan.targets != [] && (plan.discard == [] || confirmed) && repositoryFound)
  {
  }

  // ---------------------------------------------------------------------------
  // Committing

  /** What the commit checks read from the repository: its groups and whether a merge is in progress. */
  datatype RepoView = RepoView(conflict: seq<Resource>, working: seq<Resource>, staging: seq<Resource>,
                               isMerge: bool)

  /** The answers and results a commit meets, in the order it meets them. */
  datatype CommitOracle = CommitOracle(
    unsavedPick: Option<UnsavedPick>,
    useWorkingGroup: bool,
    deleteMissing: bool,
    branchName: Option<seq<char>>,
    message: Option<seq<char>>,
    commitResult: Result<(), Error>)

  /**
   * `checkTrackedUnsavedFiles`, from the open documents that have unsaved changes and are
   * tracked or listed: with none it goes on; otherwise the user may save and add them and
   * go on, go on without, or cancel.
   */
  function UnsavedCheck(documents: seq<Uri>, pick: Option<UnsavedPick>): (res: (seq<Event>, bool))
    ensures !res.1 <==> documents != [] && pick.None?
    ensures documents == [] ==> res.0 == []
    ensures documents != [] ==> |res.0| > 0 && res.0[0] == Ask(ConfirmUnsavedFiles(documents))
    ensures Run(Files(AddFiles, documents)) in res.0 <==> documents != [] && pick == Some(SaveAllAndCommit)
  {
    if documents == [] then ([], true)
    else
      var asked := [Ask(ConfirmUnsavedFiles(documents))];
      if pick == Some(SaveAllAndCommit) then
        (asked + [Run(SaveDocuments(documents)), Run(Files(AddFiles, documents))], true)
      else (asked, pick.Some?)
  }

  /** The resources with status `MISSING`, each as often as listed, in list order. */
  function MissingOf(rs: seq<Resource>): (missing: seq<Resource>)
    ensures forall r :: r in missing <==> r in rs && r.status == MISSING
  {
    Partition(rs, (r: Resource) => r.status == MISSING).0
  }

  /** The missing files are listed as often as the group lists them, in the group's order. */
  lemma MissingInOrder(rs: seq<Resource>)
    ensures forall r :: multiset(MissingOf(rs))[r] == if r.status == MISSING then multiset(rs)[r] else 0
    ensures OrderedIn(MissingOf(rs), rs)
  {
    PartitionInOrder(rs, (r: Resource) => r.status == MISSING);
  }

  /**
   * The missing files of a concatenation are those of each part, one after the other, and a
   * single resource is missing iff its status says so: the list is fixed exactly.
   */
  lemma MissingAppend(a: seq<Resource>, b: seq<Resource>, x: Resource)
    ensures MissingOf(a + b) == MissingOf(a) + MissingOf(b)
    ensures MissingOf([x]) == if x.status == MISSING then [x] else []
  {
    PartitionAppend(a, b, (r: Resource) => r.status == MISSING);
    PartitionOne(x, (r: Resource) => r.status == MISSING);
  }

  /** What `validateNoConflicts` leaves: its answer, the scope it settled on, and what it did. */
  datatype Checked = Checked(ok: bool, scope: CommitScope, events: seq<Event>)

  /** The scope an unknown scope resolves to without a merge: the working group when only it has changes. */
  function ResolvedScope(repo: RepoView, scope: CommitScope): CommitScope {
    if scope != UNKNOWN then scope
    else if |repo.working| > 0 && |repo.staging| == 0 then WORKING_GROUP
    else STAGING_GROUP
  }

  /** Whether the scope finds nothing to commit, on the counts taken before any prompt. */
  predicate NothingToCommit(repo: RepoView, scope: CommitScope) {
    || (|repo.working| == 0 && |repo.staging| == 0)
    || (scope == STAGING_GROUP && |repo.staging| == 0)
    || (scope == WORKING_GROUP && |repo.working| == 0)
  }

  /** How `validateNoConflicts` removes the missing files: through the `remove` command. */
  function RemoveMissing(missing: seq<Resource>): seq<Event> {
    FileCommandEvents(RemoveFiles, FossilArgs(missing), None, true)
  }

  /** The first check, then the second unless the first stopped the commit. */
  function Then(first: Checked, second: Checked): (c: Checked)
  {
    if first.ok then Checked(second.ok, second.scope, first.events + second.events) else first
  }

  /**
   * Resolving an unknown scope: when only the working group has changes the user is asked
   * and the working group is used if they agree; otherwise the staging group is used.
   */
  function ScopeCheck(repo: RepoView, scope: CommitScope, o: CommitOracle): (c: Checked)
    ensures c.ok ==> c.scope == ResolvedScope(repo, scope)
    ensures !c.ok ==> c.scope == scope == UNKNOWN
    ensures c.events == [] || c.events == [Ask(ConfirmCommitWorkingGroup)]
  {
    if scope == UNKNOWN && |repo.working| > 0 && |repo.staging| == 0 then
      Checked(o.useWorkingGroup, if o.useWorkingGroup then WORKING_GROUP else scope, [Ask(ConfirmCommitWorkingGroup)])
    else Checked(true, ResolvedScope(repo, scope), [])
  }

  /** Missing files of a working-group commit: removed once the user confirms, or the commit stops. */
  function MissingCheck(repo: RepoView, scope: CommitScope, o: CommitOracle): (c: Checked)
    ensures c.scope == scope
  {
    var missing := MissingOf(repo.working);
    if scope == WORKING_GROUP && missing != [] then
      var confirm := Ask(ConfirmDeleteMissingFiles(UrisOf(missing)));
      if o.deleteMissing then Checked(true, scope, [confirm] + RemoveMissing(missing))
      else Checked(false, scope, [confirm])
    else Checked(true, scope, [])
  }

  /** The empty-change check: a notice and a stop when the scope has nothing to commit. */
  function EmptyCheck(repo: RepoView, scope: CommitScope): (c: Checked)
    ensures c.scope == scope && (c.ok <==> !NothingToCommit(repo, scope))
  {
    if NothingToCommit(repo, scope) then Checked(false, scope, [Tell(InformNoChangesToCommit)])
    else Checked(true, scope, [])
  }

  /** The checks of a commit that is not a merge: the scope, the missing files, then the empty-change check. */
  function ScopedChecks(repo: RepoView, scope: CommitScope, o: CommitOracle): Checked {
    var resolved := ScopeCheck(repo, scope, o);
    Then(resolved, Then(MissingCheck(repo, resolved.scope, o), EmptyCheck(repo, resolved.scope)))
  }

  /**
   * `validateNoConflicts`: conflicts stop the commit with a warning; a merge commits
   * everything; otherwise an unknown scope is resolved (asking before choosing the working
   * group), missing files of a working-group commit are removed once confirmed, and a
   * scope with nothing to commit stops it with a notice.
   */
  function Validation(repo: RepoView, scope: CommitScope, o: CommitOracle): (c: Checked)
    ensures |repo.conflict| > 0 ==> c == Checked(false, scope, [Tell(WarnResolveConflicts)])
    ensures |repo.conflict| == 0 && repo.isMerge ==> c == Checked(true, ALL, [])
  {
    if |repo.conflict| > 0 then Checked(false, scope, [Tell(WarnResolveConflicts)])
    else if repo.isMerge then Checked(true, ALL, [])
    else ScopedChecks(repo, scope, o)
  }

  /**
   * Scope resolution: without conflicts or a merge, the user is asked about the working
   * group exactly when the scope is unknown, the working group has changes and nothing is
   * staged; declining stops the commit, and otherwise the scope is no longer unknown.
   */
  lemma ValidationScope(repo: RepoView, scope: CommitScope, o: CommitOracle)
    requires |repo.conflict| == 0 && !repo.isMerge
    ensures var c := Validation(repo, scope, o);
      var asks := scope == UNKNOWN && |repo.working| > 0 && |repo.staging| == 0;
      && (Ask(ConfirmCommitWorkingGroup) in c.events <==> asks)
      && (asks && !o.useWorkingGroup ==> !c.ok && c.scope == UNKNOWN)
      && (asks && o.useWorkingGroup ==> c.scope == WORKING_GROUP)
      && (scope == UNKNOWN && !asks ==> c.scope == STAGING_GROUP)
      && (scope != UNKNOWN ==> c.scope == scope)
  {
    var c := Validation(repo, scope, o);
    var asks := scope == UNKNOWN && |repo.working| > 0 && |repo.staging| == 0;
    if !asks {
      assert c.events == [] || c.events[0] != Ask(ConfirmCommitWorkingGroup);
    }
  }

  /** The missing-file step on its own: the confirmation first, then the removal or the stop. */
  lemma MissingCheckSteps(repo: RepoView, o: CommitOracle)
    requires MissingOf(repo.working) != []
    ensures var m := MissingCheck(repo, WORKING_GROUP, o);
      var missing := MissingOf(repo.working);
      && |m.events| > 0 && m.events[0] == Ask(ConfirmDeleteMissingFiles(UrisOf(missing)))
      && (!o.deleteMissing ==> m == Checked(false, WORKING_GROUP, [Ask(ConfirmDeleteMissingFiles(UrisOf(missing)))]))
      && ((forall r :: r in repo.working ==> r.group == "working") && o.deleteMissing ==>
            m.ok && |m.events| > 1 && m.events[1] == Run(Files(RemoveFiles, UrisOf(missing))))
  {
    var missing := MissingOf(repo.working);
    if (forall r :: r in repo.working ==> r.group == "working") && o.deleteMissing {
      SelectedAll(missing, (r: Resource) => r.group in AcceptedGroups(RemoveFiles));
      assert FileCommandTargets(RemoveFiles, FossilArgs(missing), None) == missing;
    }
  }

  /**
   * Missing files: in a working-group commit with missing files the user is asked, and
   * declining stops the commit before anything is removed; accepting removes exactly those
   * files (when the working group's resources carry its id) before the empty-change check.
   */
  lemma ValidationMissing(repo: RepoView, scope: CommitScope, o: CommitOracle)
    requires |repo.conflict| == 0 && !repo.isMerge
    requires Validation(repo, scope, o).scope == WORKING_GROUP
    requires MissingOf(repo.working) != []
    ensures var c := Validation(repo, scope, o);
      var missing := MissingOf(repo.working);
      && Ask(ConfirmDeleteMissingFiles(UrisOf(missing))) in c.events
      && (!o.deleteMissing ==> !c.ok && forall e :: e in c.events ==> !e.Run?)
      && ((forall r :: r in repo.working ==> r.group == "working") && o.deleteMissing ==>
            Run(Files(RemoveFiles, UrisOf(missing))) in c.events)
  {
    var c := Validation(repo, scope, o);
    var missing := MissingOf(repo.working);
    var confirm := Ask(ConfirmDeleteMissingFiles(UrisOf(missing)));
    var resolved := ScopeCheck(repo, scope, o);
    assert resolved.ok && resolved.scope == WORKING_GROUP;
    var m := MissingCheck(repo, WORKING_GROUP, o);
    var rest := Then(m, EmptyCheck(repo, WORKING_GROUP));
    MissingCheckSteps(repo, o);
    assert c.events == resolved.events + rest.events;
    assert rest.events[0] == confirm;
    assert c.events[|resolved.events|] == confirm;
    if !o.deleteMissing {
      assert rest == m;
      assert c.events == resolved.events + [confirm];
    }
    if (forall r :: r in repo.working ==> r.group == "working") && o.deleteMissing {
      assert rest.events[1] == m.events[1];
      assert c.events[|resolved.events| + 1] == rest.events[1];
    }
  }

  /**
   * The empty-change check uses the group sizes taken before any prompt or removal: once no
   * conflict, merge or declined prompt has stopped it, the commit goes ahead exactly when
   * the resolved scope has something to commit.
   */
  lemma ValidationEmptyCheck(repo: RepoView, scope: CommitScope, o: CommitOracle)
    requires |repo.conflict| == 0 && !repo.isMerge
    requires !(scope == UNKNOWN && |repo.working| > 0 && |repo.staging| == 0 && !o.useWorkingGroup)
    requires !(ResolvedScope(repo, scope) == WORKING_GROUP && MissingOf(repo.working) != [] && !o.deleteMissing)
    ensures var c := Validation(repo, scope, o);
      && c.scope == ResolvedScope(repo, scope)
      && (c.ok <==> !NothingToCommit(repo, c.scope))
      && (!c.ok <==> Tell(InformNoChangesToCommit) in c.events)
  {
    var c := Validation(repo, scope, o);
    if c.ok {
      var missing := MissingOf(repo.working);
      var confirm := [Ask(ConfirmDeleteMissingFiles(UrisOf(missing)))];
      forall e | e in c.events
        ensures e != Tell(InformNoChangesToCommit)
      {
        assert e in confirm + RemoveMissing(missing) || e == Ask(ConfirmCommitWorkingGroup);
      }
    }
  }

  /** Where `smartCommit` takes the commit message from. */
  datatype MessageSource = FromPrompt(initial: seq<char>, mergeOf: Option<(seq<char>, seq<char>)>) | FromInputBox

  /** What `smartCommit` leaves: what it did, the scope it left in the options, and its result. */
  datatype Committed = Committed(events: seq<Event>, scope: CommitScope, result: Result<bool, Error>)

  /** Everything `smartCommit` does before it commits: both checks, the branch name and the message. */
  function CommitPreamble(repo: RepoView, documents: seq<Uri>, scope: CommitScope, useBranch: bool,
                          source: MessageSource, o: CommitOracle): (events: seq<Event>)
  {
    var unsaved := UnsavedCheck(documents, o.unsavedPick).0;
    var checked := Validation(repo, scope, o).events;
    var branch := if useBranch then [Ask(InputNewBranchName)] else [];
    var message := if source.FromPrompt? then [Ask(InputCommitMessage(source.initial, source.mergeOf))] else [];
    unsaved + checked + branch + message
  }

  /** The unsaved-file check never commits and never asks for a branch name. */
  lemma UnsavedCheckNeverCommits(documents: seq<Uri>, pick: Option<UnsavedPick>)
    ensures NoCommit(UnsavedCheck(documents, pick).0) && Ask(InputNewBranchName) !in UnsavedCheck(documents, pick).0
  {
  }

  /** The missing-file step never commits and never asks for a branch name. */
  lemma MissingCheckNeverCommits(repo: RepoView, scope: CommitScope, o: CommitOracle)
    ensures NoCommit(MissingCheck(repo, scope, o).events)
    ensures Ask(InputNewBranchName) !in MissingCheck(repo, scope, o).events
  {
    var missing := MissingOf(repo.working);
    NoCommitConcat([Ask(ConfirmDeleteMissingFiles(UrisOf(missing)))], RemoveMissing(missing));
  }

  /** `validateNoConflicts` never commits and never asks for a branch name. */
  lemma ValidationNeverCommits(repo: RepoView, scope: CommitScope, o: CommitOracle)
    ensures NoCommit(Validation(repo, scope, o).events) && Ask(InputNewBranchName) !in Validation(repo, scope, o).events
  {
    if |repo.conflict| == 0 && !repo.isMerge {
      var resolved := ScopeCheck(repo, scope, o);
      var m := MissingCheck(repo, resolved.scope, o);
      var e := EmptyCheck(repo, resolved.scope);
      MissingCheckNeverCommits(repo, resolved.scope, o);
      NoCommitConcat(m.events, e.events);
      NoCommitConcat(resolved.events, Then(m, e).events);
    }
  }

  /** Nothing before the commit call commits. */
  lemma PreambleNeverCommits(repo: RepoView, documents: seq<Uri>, scope: CommitScope, useBranch: bool,
                             source: MessageSource, o: CommitOracle)
    ensures NoCommit(CommitPreamble(repo, documents, scope, useBranch, source, o))
  {
    var unsaved := UnsavedCheck(documents, o.unsavedPick).0;
    var checked := Validation(repo, scope, o).events;
    var branch := if useBranch then [Ask(InputNewBranchName)] else [];
    var message := if source.FromPrompt? then [Ask(InputCommitMessage(source.initial, source.mergeOf))] else [];
    UnsavedCheckNeverCommits(documents, o.unsavedPick);
    ValidationNeverCommits(repo, scope, o);
    NoCommitConcat(unsaved, checked);
    NoCommitConcat(unsaved + checked, branch);
    NoCommitConcat(unsaved + checked + branch, message);
  }

  /** The message `smartCommit` gets: the user's answer, or the input box as it stands. */
  function MessageOf(source: MessageSource, inputBox: seq<char>, o: CommitOracle): Option<seq<char>> {
    if source.FromPrompt? then o.message else Some(inputBox)
  }

  /**
   * `smartCommit`: the unsaved-file and conflict checks run, but their answers are promises
   * that the guard negates, so they never stop it; the branch name is asked for only for a
   * branch commit and used as given; without a message nothing is committed; otherwise it
   * commits once, with the scope the checks settled on, and fails when the commit fails.
   */
  function SmartCommitFlow(repo: RepoView, documents: seq<Uri>, scope: CommitScope, useBranch: bool,
                           source: MessageSource, inputBox: seq<char>, o: CommitOracle): (c: Committed)
    ensures c.scope == Validation(repo, scope, o).scope
  {
    var before := CommitPreamble(repo, documents, scope, useBranch, source, o);
    var v := Validation(repo, scope, o);
    var branch := if useBranch then o.branchName else None;
    var message := MessageOf(source, inputBox, o);
    if message.None? then Committed(before, v.scope, Ok(false))
    else
      var after := before + [Run(Commit(message.value, v.scope, branch))];
      Committed(after, v.scope, if o.commitResult.Err? then Err(o.commitResult.error) else Ok(true))
  }

  /**
   * The commit happens exactly once whenever there is a message, whatever the checks
   * concluded (even with conflicts, a declined prompt or nothing to commit), with the
   * settled scope and the branch name only for a branch commit; without a message there
   * is no commit and the answer is "not committed".
   */
  lemma SmartCommitOnce(repo: RepoView, documents: seq<Uri>, scope: CommitScope, useBranch: bool,
                        source: MessageSource, inputBox: seq<char>, o: CommitOracle)
    ensures var c := SmartCommitFlow(repo, documents, scope, useBranch, source, inputBox, o);
      var message := MessageOf(source, inputBox, o);
      && (message.None? ==> NoCommit(c.events) && c.result == Ok(false))
      && (message.Some? ==>
            && |c.events| > 0 && NoCommit(c.events[..|c.events| - 1])
            && c.events[|c.events| - 1] ==
                 Run(Commit(message.value, Validation(repo, scope, o).scope, if useBranch then o.branchName else None))
            && c.result == (if o.commitResult.Ok? then Ok(true) else Err(o.commitResult.error)))
  {
    var c := SmartCommitFlow(repo, documents, scope, useBranch, source, inputBox, o);
    var before := CommitPreamble(repo, documents, scope, useBranch, source, o);
    PreambleNeverCommits(repo, documents, scope, useBranch, source, o);
    if MessageOf(source, inputBox, o).Some? {
      assert c.events[..|c.events| - 1] == before;
    }
  }

  /** The branch name is asked for exactly in a branch commit. */
  lemma BranchNameOnlyForBranchCommits(repo: RepoView, documents: seq<Uri>, scope: CommitScope, useBranch: bool,
                                       source: MessageSource, inputBox: seq<char>, o: CommitOracle)
    ensures Ask(InputNewBranchName) in SmartCommitFlow(repo, documents, scope, useBranch, source, inputBox, o).events
      <==> useBranch
  {
    var before := CommitPreamble(repo, documents, scope, useBranch, source, o);
    UnsavedCheckNeverCommits(documents, o.unsavedPick);
    ValidationNeverCommits(repo, scope, o);
    assert Ask(InputNewBranchName) in before <==> useBranch;
  }

  /** What a command leaves: what it did, the input box, and whether it failed. */
  datatype Outcome = Outcome(events: seq<Event>, inputBox: seq<char>, result: Result<(), Error>)

  /**
   * `commitWithAnyInput`: commits with a message prompted for, starting from the input
   * box, and empties the box only when it held a message and the commit went ahead.
   */
  function CommitWithAnyInputFlow(repo: RepoView, documents: seq<Uri>, scope: CommitScope, useBranch: bool,
                                  inputBox: seq<char>, o: CommitOracle): (r: Outcome)
    ensures var c := SmartCommitFlow(repo, documents, scope, useBranch, FromPrompt(inputBox, None), inputBox, o);
      && r.events == c.events
      && (r.inputBox == [] <==> inputBox == [] || c.result == Ok(true))
      && (r.inputBox != [] ==> r.inputBox == inputBox)
      && (r.result.Err? <==> c.result.Err?)
  {
    var c := SmartCommitFlow(repo, documents, scope, useBranch, FromPrompt(inputBox, None), inputBox, o);
    match c.result
    case Err(e) => Outcome(c.events, inputBox, Err(e))
    case Ok(didCommit) => Outcome(c.events, if inputBox != [] && didCommit then [] else inputBox, Ok(()))
  }

  /**
   * `commitWithInput`: commits the input box's text as it stands, with an unknown scope and
   * no branch, and empties the box when the commit went ahead.
   */
  function CommitWithInputFlow(repo: RepoView, documents: seq<Uri>, inputBox: seq<char>, o: CommitOracle)
    : (r: Outcome)
    ensures var c := SmartCommitFlow(repo, documents, UNKNOWN, false, FromInputBox, inputBox, o);
      && r.events == c.events
      && (c.result == Ok(true) ==> r.inputBox == [])
      && (c.result != Ok(true) ==> r.inputBox == inputBox)
      && (r.result.Err? <==> c.result.Err?)
  {
    var c := SmartCommitFlow(repo, documents, UNKNOWN, false, FromInputBox, inputBox, o);
    match c.result
    case Err(e) => Outcome(c.events, inputBox, Err(e))
    case Ok(didCommit) => Outcome(c.events, if didCommit then [] else inputBox, Ok(()))
  }

  /** The input box's text is committed even when it is empty: `commitWithInput` never asks for a message. */
  lemma CommitWithInputCommitsBox(repo: RepoView, documents: seq<Uri>, inputBox: seq<char>, o: CommitOracle)
    ensures var r := CommitWithInputFlow(repo, documents, inputBox, o);
      && |r.events| > 0
      && r.events[|r.events| - 1] == Run(Commit(inputBox, Validation(repo, UNKNOWN, o).scope, None))
  {
    SmartCommitOnce(repo, documents, UNKNOWN, false, FromInputBox, inputBox, o);
  }

  /** The commit commands bound to the commit flow, by the options they start from. */
  datatype CommitCommand = CommitDefault | CommitStaged | CommitAll | CommitBranch

  /** The scope and branch flag each commit command starts `commitWithAnyInput` with. */
  function OptionsOf(command: CommitCommand): (opts: (CommitScope, bool))
    ensures opts.1 <==> command == CommitBranch
    ensures opts.0 == UNKNOWN <==> command in {CommitDefault, CommitBranch}
    ensures command == CommitStaged ==> opts.0 == STAGING_GROUP
    ensures command == CommitAll ==> opts.0 == ALL
  {
    match command
    case CommitDefault => (UNKNOWN, false)
    case CommitStaged => (STAGING_GROUP, false)
    case CommitAll => (ALL, false)
    case CommitBranch => (UNKNOWN, true)
  }

  // ---------------------------------------------------------------------------
  // Undo, redo, branches and opening a repository

  /**
   * `undoOrRedo`: a dry run, then the real action once the user confirms what it would do;
   * every error is caught, and only a missing undo history is reported.
   */
  function UndoOrRedoFlow(command: UndoCommand, dryRun: Result<seq<char>, Error>, confirmed: bool,
                          performed: Result<(), Error>): (events: seq<Event>)
    ensures |events| > 0 && events[0] == Run(UndoOrRedo(command, true))
    ensures Run(UndoOrRedo(command, false)) in events <==> dryRun.Ok? && confirmed
    ensures Run(UndoOrRedo(command, false)) in events ==>
      events[1] == Ask(ConfirmUndoOrRedo(command, dryRun.value)) && events[2] == Run(UndoOrRedo(command, false))
    ensures Tell(WarnNoUndoOrRedo(command)) in events <==>
      || (dryRun.Err? && HasCode(dryRun.error, "NoUndoInformationAvailable"))
      || (dryRun.Ok? && confirmed && performed.Err? && HasCode(performed.error, "NoUndoInformationAvailable"))
  {
    var start := [Run(UndoOrRedo(command, true))];
    var ran: (seq<Event>, Option<Error>) :=
      match dryRun
      case Err(e) => (start, Some(e))
      case Ok(description) =>
        var asked := start + [Ask(ConfirmUndoOrRedo(command, description))];
        if !confirmed then (asked, None)
        else (asked + [Run(UndoOrRedo(command, false))], if performed.Err? then Some(performed.error) else None);
    if ran.1.Some? && HasCode(ran.1.value, "NoUndoInformationAvailable") then
      ran.0 + [Tell(WarnNoUndoOrRedo(command))]
    else ran.0
  }

  /**
   * `branch`: nothing without a name; a failure other than an existing branch is swallowed;
   * an existing branch lets the user reopen it or update to it, and that second call's
   * failure is not caught.
   */
  function BranchFlow(name: Option<seq<char>>, first: Result<(), Error>, action: Option<BranchExistsAction>,
                      second: Result<(), Error>): (res: (seq<Event>, Result<(), Error>))
    ensures |res.0| > 0 && res.0[0] == Ask(InputNewBranchName)
    ensures name.None? || name == Some([]) ==> res == ([Ask(InputNewBranchName)], Ok(()))
    ensures res.1.Err? ==> && name.Some? && first.Err? && HasCode(first.error, "BranchAlreadyExists")
                           && action.Some? && res.1 == second
    ensures name.Some? && name.value != [] && first.Err? && HasCode(first.error, "BranchAlreadyExists")
      ==> Ask(WarnBranchAlreadyExists(name.value)) in res.0
    ensures (name.Some? && name.value != [] && first.Err? && HasCode(first.error, "BranchAlreadyExists")
             && action.Some?)
      ==> (&& res.1 == second
           && res.0[|res.0| - 1] == if action == Some(Reopen) then Run(NewBranch(name.value)) else Run(Update(name.value)))
  {
    var ask := [Ask(InputNewBranchName)];
    if name.None? || name.value == [] then (ask, Ok(()))
    else
      var n := name.value;
      var tried := ask + [Run(NewBranch(n))];
      if first.Ok? || !HasCode(first.error, "BranchAlreadyExists") then (tried, Ok(()))
      else
        var warned := tried + [Ask(WarnBranchAlreadyExists(n))];
        match action
        case Some(Reopen) => (warned + [Run(NewBranch(n))], second)
        case Some(UpdateTo) => (warned + [Run(Update(n))], second)
        case None => (warned, Ok(()))
  }

  /**
   * `openRepository`: a refusal to open over existing files lets the user force it (the
   * forced call is not awaited, so its failure is lost); any other failure is rethrown.
   */
  function OpenRepositoryFlow(file: Path, parent: Path, first: Result<(), Error>, confirmed: bool)
    : (res: (seq<Event>, Result<(), Error>))
    ensures |res.0| > 0 && res.0[0] == Run(OpenClone(file, parent))
    ensures res.1.Err? <==> first.Err? && !HasCode(first.error, "OperationMustBeforced")
    ensures res.1.Err? ==> res.1 == first
    ensures Run(OpenCloneForce(file, parent)) in res.0 <==>
      first.Err? && HasCode(first.error, "OperationMustBeforced") && confirmed
  {
    var tried := [Run(OpenClone(file, parent))];
    if first.Ok? then (tried, Ok(()))
    else if HasCode(first.error, "OperationMustBeforced") then
      var asked := tried + [Ask(ConfirmOpenNotEmpty(parent))];
      (if confirmed then asked + [Run(OpenCloneForce(file, parent))] else asked, Ok(()))
    else (tried, Err(first.error))
  }

  // ---------------------------------------------------------------------------
  // Merging

  /**
   * `isItOkayToMerge`: an outstanding merge, or else an unclean checkout, stops the merge
   * and focuses the source-control view; the second check runs only after the first passes.
   */
  function OkayToMergeFlow(outstanding: bool, unclean: bool): (res: (seq<Event>, bool))
    ensures res.1 <==> !outstanding && !unclean
    ensures Ask(CheckUnclean) in res.0 <==> !outstanding
    ensures !res.1 <==> Tell(FocusScm) in res.0
    ensures forall e :: e in res.0 ==> !e.Run?
  {
    if outstanding then ([Ask(CheckOutstandingMerge), Tell(FocusScm)], false)
    else if unclean then ([Ask(CheckOutstandingMerge), Ask(CheckUnclean), Tell(FocusScm)], false)
    else ([Ask(CheckOutstandingMerge), Ask(CheckUnclean)], true)
  }

  /** The results and answers a merge meets: the merge's result, the branch after it, and its commit. */
  datatype MergeOracle = MergeOracle(result: Result<nat, Error>, currentBranch: Option<seq<char>>,
                                     after: RepoView, documents: seq<Uri>, commit: CommitOracle)

  /** What `doMerge`'s handler shows: the untracked files in the way, when the error names them. */
  function HandlerEvents(e: Error): seq<Event> {
    if HasCode(e, "UntrackedFilesDiffer") && e.untrackedFilenames.Some? then
      [Tell(ErrorUntrackedFilesDiffer(e.untrackedFilenames.value))]
    else []
  }

  /** `doMerge`'s handler: untracked files in the way are reported and the error dropped; others are rethrown. */
  function Caught(events: seq<Event>, inputBox: seq<char>, e: Error): (r: Outcome)
    ensures r.inputBox == inputBox && r.events == events + HandlerEvents(e)
    ensures r.result.Err? <==> !(HasCode(e, "UntrackedFilesDiffer") && e.untrackedFilenames.Some?)
    ensures r.result.Err? ==> r.result.error == e && r.events == events
    ensures r.result.Ok? ==> r.events == events + [Tell(ErrorUntrackedFilesDiffer(e.untrackedFilenames.value))]
  {
    if HasCode(e, "UntrackedFilesDiffer") && e.untrackedFilenames.Some? then
      Outcome(events + HandlerEvents(e), inputBox, Ok(()))
    else Outcome(events, inputBox, Err(e))
  }

  /** The commit a clean merge on a branch runs: a message prompt seeded with the merge's description. */
  function MergeCommit(revision: seq<char>, inputBox: seq<char>, m: MergeOracle): Committed
    requires m.currentBranch.Some?
  {
    SmartCommitFlow(m.after, m.documents, UNKNOWN, false, FromPrompt([], Some((m.currentBranch.value, revision))),
                    inputBox, m.commit)
  }

  /**
   * `doMerge`: unresolved files are reported and nothing is committed; a clean merge on a
   * current branch runs the commit flow with the merge described; failures of the merge or
   * of that commit go to the handler.
   */
  function DoMergeFlow(revision: seq<char>, action: MergeAction, inputBox: seq<char>, m: MergeOracle): (r: Outcome)
    ensures |r.events| > 0 && r.events[0] == Run(MergeWith(revision, action))
  {
    var start := [Run(MergeWith(revision, action))];
    match m.result
    case Err(e) => Caught(start, inputBox, e)
    case Ok(unresolved) =>
      if unresolved > 0 then Outcome(start + [Tell(WarnUnresolvedFiles(unresolved))], inputBox, Ok(()))
      else if m.currentBranch.None? || m.currentBranch.value == [] then Outcome(start, inputBox, Ok(()))
      else
        var c := MergeCommit(revision, inputBox, m);
        match c.result
        case Err(e) => Caught(start + c.events, inputBox, e)
        case Ok(didCommit) => Outcome(start + c.events, if didCommit then [] else inputBox, Ok(()))
  }

  /** A merge that leaves unresolved files warns with their number and never commits. */
  lemma MergeWithUnresolvedNeverCommits(revision: seq<char>, action: MergeAction, inputBox: seq<char>,
                                        m: MergeOracle)
    requires m.result.Ok? && m.result.value > 0
    ensures var r := DoMergeFlow(revision, action, inputBox, m);
      && r.events == [Run(MergeWith(revision, action)), Tell(WarnUnresolvedFiles(m.result.value))]
      && NoCommit(r.events) && r.result == Ok(()) && r.inputBox == inputBox
  {
  }

  /**
   * A clean merge on a branch runs the commit flow, asking for a message seeded with the
   * merge's description, and empties the input box once that commit went ahead.
   */
  lemma CleanMergeCommits(revision: seq<char>, action: MergeAction, inputBox: seq<char>, m: MergeOracle)
    requires m.result == Ok(0) && m.currentBranch.Some? && m.currentBranch.value != []
    ensures var r := DoMergeFlow(revision, action, inputBox, m);
      var c := MergeCommit(revision, inputBox, m);
      && |r.events| > |c.events|
      && r.events[..|c.events| + 1] == [Run(MergeWith(revision, action))] + c.events
      && Ask(InputCommitMessage([], Some((m.currentBranch.value, revision)))) in c.events
      && (c.result == Ok(true) ==> r.inputBox == [] && r.result == Ok(()))
      && (c.result == Ok(false) ==> r.inputBox == inputBox && r.result == Ok(()))
      && (c.result.Err? ==> r == Caught([Run(MergeWith(revision, action))] + c.events, inputBox, c.result.error))
  {
    var r := DoMergeFlow(revision, action, inputBox, m);
    var c := MergeCommit(revision, inputBox, m);
    var start := [Run(MergeWith(revision, action))];
    var pre := CommitPreamble(m.after, m.documents, UNKNOWN, false,
                              FromPrompt([], Some((m.currentBranch.value, revision))), m.commit);
    assert pre[|pre| - 1] == Ask(InputCommitMessage([], Some((m.currentBranch.value, revision))));
    assert c.events[|pre| - 1] == pre[|pre| - 1];
    assert (start + c.events)[..|c.events| + 1] == start + c.events;
    if c.result.Err? && r.result.Ok? {
      assert r.events == start + c.events + [Tell(ErrorUntrackedFilesDiffer(c.result.error.untrackedFilenames.value))];
      assert r.events[..|c.events| + 1] == start + c.events;
    }
  }

  /** Which failures `doMerge` passes on: all but untracked files in the way, when it names them. */
  lemma MergeFailures(revision: seq<char>, action: MergeAction, inputBox: seq<char>, m: MergeOracle, e: Error)
    requires m.result == Err(e)
    ensures var r := DoMergeFlow(revision, action, inputBox, m);
      && (HasCode(e, "UntrackedFilesDiffer") && e.untrackedFilenames.Some? ==>
            r.result == Ok(()) && Tell(ErrorUntrackedFilesDiffer(e.untrackedFilenames.value)) in r.events)
      && (!(HasCode(e, "UntrackedFilesDiffer") && e.untrackedFilenames.Some?) ==> r.result == Err(e))
      && NoCommit(r.events)
  {
    var r := DoMergeFlow(revision, action, inputBox, m);
    assert r.events[|r.events| - 1] in r.events;
  }

  /** A pick goes on to merging only when it is a non-empty name: the source tests it for truthiness. */
  predicate Chosen(picked: Option<seq<char>>) {
    picked.Some? && picked.value != []
  }

  /**
   * What `mergeCommon` and `cherrypick` do before merging: the merge checks, then, if they
   * pass, the listing and the pick; the merge follows exactly when a candidate was picked.
   */
  function PickStage(listing: Call, pick: Prompt, outstanding: bool, unclean: bool, picked: Option<seq<char>>)
    : (res: (seq<Event>, bool))
    ensures var okay := OkayToMergeFlow(outstanding, unclean);
      && (res.1 <==> okay.1 && Chosen(picked))
      && |okay.0| <= |res.0| && res.0[..|okay.0|] == okay.0
      && (okay.1 ==> res.0 == okay.0 + [Run(listing), Ask(pick)])
  {
    var okay := OkayToMergeFlow(outstanding, unclean);
    if !okay.1 then (okay.0, false) else (okay.0 + [Run(listing), Ask(pick)], Chosen(picked))
  }

  /**
   * `mergeCommon` (behind `merge` and `integrate`) and `cherrypick`: once the merge is
   * allowed, list the candidates, let the user pick one, and merge it.
   */
  function PickAndMergeFlow(listing: Call, pick: Prompt, action: MergeAction, outstanding: bool, unclean: bool,
                            picked: Option<seq<char>>, inputBox: seq<char>, m: MergeOracle): (r: Outcome)
    ensures outstanding || unclean ==> r == Outcome(OkayToMergeFlow(outstanding, unclean).0, inputBox, Ok(()))
    ensures !Chosen(picked) ==> r == Outcome(PickStage(listing, pick, outstanding, unclean, picked).0, inputBox, Ok(()))
  {
    var stage := PickStage(listing, pick, outstanding, unclean, picked);
    if !stage.1 then Outcome(stage.0, inputBox, Ok(()))
    else
      var d := DoMergeFlow(picked.value, action, inputBox, m);
      Outcome(stage.0 + d.events, d.inputBox, d.result)
  }

  /**
   * Once both checks pass and a candidate is picked, the command merges exactly that candidate
   * with its own action, and ends with what `doMerge` does, answers and leaves in the box.
   */
  lemma PickedCandidateMerged(listing: Call, pick: Prompt, action: MergeAction, outstanding: bool,
                              unclean: bool, picked: Option<seq<char>>, inputBox: seq<char>, m: MergeOracle)
    requires !outstanding && !unclean && Chosen(picked)
    ensures var r := PickAndMergeFlow(listing, pick, action, outstanding, unclean, picked, inputBox, m);
      var d := DoMergeFlow(picked.value, action, inputBox, m);
      && r.events == PickStage(listing, pick, outstanding, unclean, picked).0 + d.events
      && r.result == d.result && r.inputBox == d.inputBox
      && Run(MergeWith(picked.value, action)) in r.events
  {
    var d := DoMergeFlow(picked.value, action, inputBox, m);
    assert PickAndMergeFlow(listing, pick, action, outstanding, unclean, picked, inputBox, m).events[|PickStage(listing, pick, outstanding, unclean, picked).0|] == d.events[0];
  }

  /** A merge is attempted exactly when both checks pass and the user picks a non-empty candidate. */
  lemma MergeNeedsPermissionAndPick(listing: Call, pick: Prompt, action: MergeAction, outstanding: bool,
                                    unclean: bool, picked: Option<seq<char>>, inputBox: seq<char>, m: MergeOracle)
    requires listing == GetBranches || listing == GetLogEntries
    ensures var r := PickAndMergeFlow(listing, pick, action, outstanding, unclean, picked, inputBox, m);
      (exists rev, act :: Run(MergeWith(rev, act)) in r.events) <==> !outstanding && !unclean && Chosen(picked)
  {
    var r := PickAndMergeFlow(listing, pick, action, outstanding, unclean, picked, inputBox, m);
    var okay := OkayToMergeFlow(outstanding, unclean);
    if !outstanding && !unclean && Chosen(picked) {
      var d := DoMergeFlow(picked.value, action, inputBox, m);
      assert r.events[|okay.0| + 2] == d.events[0];
    } else {
      forall rev, act ensures Run(MergeWith(rev, act)) !in r.events {
        assert forall e :: e in okay.0 ==> !e.Run?;
      }
    }
  }
}

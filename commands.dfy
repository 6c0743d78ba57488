/**
 * The command center as an object: each command appends what it asks, tells and calls to
 * `trace`, and the commit commands clear the source-control input box. Answers from the
 * user and results from the tool arrive as parameters; every command is proved to do
 * exactly what its flow in `CommandFlows` describes.
 */
module Commands {
  import opened Wrappers
  import opened Resources
  import opened CommandViews
  import opened CommandFlows

  /** The options a commit runs with; `validateNoConflicts` settles the scope in place. */
  class CommitOptions {
    var scope: CommitScope
    const useBranch: bool

    constructor (scope: CommitScope, useBranch: bool)
      ensures this.scope == scope && this.useBranch == useBranch
    {
      this.scope := scope;
      this.useBranch := useBranch;
    }
  }

  lemma Appended(t: seq<Event>, a: seq<Event>, b: seq<Event>)
    ensures t + a + b == t + (a + b)
  {
  }

  class CommandCenter {
    /** What the commands have done, in order. */
    var trace: seq<Event>
    /** The text of the repository's source-control input box. */
    var inputBox: seq<char>

    constructor (inputBox: seq<char>)
      ensures trace == [] && this.inputBox == inputBox
    {
      trace := [];
      this.inputBox := inputBox;
    }

    method Record(e: Event)
      modifies this
      ensures trace == old(trace) + [e] && inputBox == old(inputBox)
    {
      trace := trace + [e];
    }

    /** `add`, `ignore`, `remove`, `stage`, `unstage`. */
    method RunFileCommand(kind: FileCommand, args: seq<Arg>, scm: Option<Resource>, repositoryFound: bool)
      modifies this
      ensures trace == old(trace) + FileCommandEvents(kind, args, scm, repositoryFound)
      ensures inputBox == old(inputBox)
    {
      var resources := FileCommandTargets(kind, args, scm);
      if resources == [] {
        return;
      }
      if repositoryFound {
        Record(Run(Files(kind, UrisOf(resources))));
      }
    }

    /** `revert`. */
    method RevertFiles(args: seq<Arg>, scm: Option<Resource>, dirty: set<Status>, confirmed: bool,
                       repositoryFound: bool)
      modifies this
      ensures trace == old(trace) + RevertEvents(args, scm, dirty, confirmed, repositoryFound)
      ensures inputBox == old(inputBox)
    {
      var plan := PlanRevert(args, scm, dirty);
      ghost var evs := RevertEvents(args, scm, dirty, confirmed, repositoryFound);
      if plan.targets == [] {
        assert evs == [];
        return;
      }
      ghost var asked: seq<Event> := [];
      if plan.discard != [] {
        var ask := Ask(ConfirmDiscardChanges(Basenames(plan.discard), Basenames(plan.added)));
        asked := [ask];
        Record(ask);
        if !confirmed {
          assert evs == asked;
          return;
        }
      }
      assert trace == old(trace) + asked;
      if repositoryFound {
        assert evs == asked + [Run(Revert(UrisOf(plan.targets)))];
        Record(Run(Revert(UrisOf(plan.targets))));
      } else {
        assert evs == asked;
      }
    }

    /** `checkTrackedUnsavedFiles`, from the unsaved documents it finds. */
    method CheckTrackedUnsavedFiles(documents: seq<Uri>, pick: Option<UnsavedPick>) returns (proceed: bool)
      modifies this
      ensures trace == old(trace) + UnsavedCheck(documents, pick).0 && proceed == UnsavedCheck(documents, pick).1
      ensures inputBox == old(inputBox)
    {
      if documents == [] {
        return true;
      }
      Record(Ask(ConfirmUnsavedFiles(documents)));
      if pick == Some(SaveAllAndCommit) {
        Record(Run(SaveDocuments(documents)));
        Record(Run(Files(AddFiles, documents)));
      } else if pick.None? {
        return false;
      }
      return true;
    }

    /** `validateNoConflicts`' resolution of an unknown scope. */
    method ResolveScope(repo: RepoView, opts: CommitOptions, o: CommitOracle) returns (ok: bool)
      modifies this, opts
      ensures var c := ScopeCheck(repo, old(opts.scope), o);
        ok == c.ok && opts.scope == c.scope && trace == old(trace) + c.events
      ensures inputBox == old(inputBox)
    {
      if opts.scope == UNKNOWN {
        if |repo.working| > 0 && |repo.staging| == 0 {
          Record(Ask(ConfirmCommitWorkingGroup));
          if !o.useWorkingGroup {
            return false;
          }
          opts.scope := WORKING_GROUP;
        } else {
          opts.scope := STAGING_GROUP;
        }
      }
      return true;
    }

    /** `validateNoConflicts`' removal of the missing files of a working-group commit. */
    method ConfirmMissing(repo: RepoView, scope: CommitScope, o: CommitOracle) returns (ok: bool)
      modifies this
      ensures var c := MissingCheck(repo, scope, o); ok == c.ok && trace == old(trace) + c.events
      ensures inputBox == old(inputBox)
    {
      if scope == WORKING_GROUP {
        var missing := MissingOf(repo.working);
        if |missing| > 0 {
          Record(Ask(ConfirmDeleteMissingFiles(UrisOf(missing))));
          if !o.deleteMissing {
            return false;
          }
          RunFileCommand(RemoveFiles, FossilArgs(missing), None, true);
        }
      }
      return true;
    }

    /** `validateNoConflicts`' empty-change check, on the group sizes taken before any prompt. */
    method InformIfEmpty(numWorking: nat, numStaging: nat, ghost repo: RepoView, scope: CommitScope) returns (ok: bool)
      requires numWorking == |repo.working| && numStaging == |repo.staging|
      modifies this
      ensures var c := EmptyCheck(repo, scope); ok == c.ok && trace == old(trace) + c.events
      ensures inputBox == old(inputBox)
    {
      if || (numWorking == 0 && numStaging == 0)
         || (scope == STAGING_GROUP && numStaging == 0)
         || (scope == WORKING_GROUP && numWorking == 0)
      {
        Record(Tell(InformNoChangesToCommit));
        return false;
      }
      return true;
    }

    /** `validateNoConflicts` once the scope is settled: the missing files, then the empty-change check. */
    method CheckMissingThenEmpty(numWorking: nat, numStaging: nat, repo: RepoView, scope: CommitScope,
                                 o: CommitOracle) returns (ok: bool)
      requires numWorking == |repo.working| && numStaging == |repo.staging|
      modifies this
      ensures var c := Then(MissingCheck(repo, scope, o), EmptyCheck(repo, scope));
        ok == c.ok && trace == old(trace) + c.events
      ensures inputBox == old(inputBox)
    {
      ok := ConfirmMissing(repo, scope, o);
      if !ok {
        return;
      }
      ok := InformIfEmpty(numWorking, numStaging, repo, scope);
      Appended(old(trace), MissingCheck(repo, scope, o).events, EmptyCheck(repo, scope).events);
    }

    /** `validateNoConflicts` past the conflict and merge tests. */
    method RunScopedChecks(numWorking: nat, numStaging: nat, repo: RepoView, opts: CommitOptions, o: CommitOracle)
      returns (ok: bool)
      requires numWorking == |repo.working| && numStaging == |repo.staging|
      modifies this, opts
      ensures var c := ScopedChecks(repo, old(opts.scope), o);
        ok == c.ok && opts.scope == c.scope && trace == old(trace) + c.events
      ensures inputBox == old(inputBox)
    {
      ghost var resolved := ScopeCheck(repo, opts.scope, o);
      ok := ResolveScope(repo, opts, o);
      if !ok {
        return;
      }
      ghost var rest := Then(MissingCheck(repo, opts.scope, o), EmptyCheck(repo, opts.scope));
      ok := CheckMissingThenEmpty(numWorking, numStaging, repo, opts.scope, o);
      Appended(old(trace), resolved.events, rest.events);
    }

    /** `validateNoConflicts`: settles `opts.scope` and says whether a commit may go ahead. */
    method ValidateNoConflicts(repo: RepoView, opts: CommitOptions, o: CommitOracle) returns (ok: bool)
      modifies this, opts
      ensures var c := Validation(repo, old(opts.scope), o);
        ok == c.ok && opts.scope == c.scope && trace == old(trace) + c.events
      ensures inputBox == old(inputBox)
    {
      if |repo.conflict| > 0 {
        Record(Tell(WarnResolveConflicts));
        return false;
      }
      var numWorking, numStaging := |repo.working|, |repo.staging|;
      if repo.isMerge {
        opts.scope := ALL;
        return true;
      }
      ok := RunScopedChecks(numWorking, numStaging, repo, opts, o);
    }

    /**
     * `smartCommit`. Both checks run, but the source's guard tests the promises they return
     * rather than their answers, so what they answer is dropped here.
     */
    method SmartCommit(repo: RepoView, documents: seq<Uri>, opts: CommitOptions, source: MessageSource,
                       o: CommitOracle) returns (r: Result<bool, Error>)
      modifies this, opts
      ensures var c := SmartCommitFlow(repo, documents, old(opts.scope), opts.useBranch, source, old(inputBox), o);
        r == c.result && opts.scope == c.scope && trace == old(trace) + c.events
      ensures inputBox == old(inputBox)
    {
      ghost var scope0, t0 := opts.scope, trace;
      var _ := CheckTrackedUnsavedFiles(documents, o.unsavedPick);
      ghost var t1 := trace;
      var _ := ValidateNoConflicts(repo, opts, o);
      ghost var t2 := trace;
      var branch := None;
      if opts.useBranch {
        Record(Ask(InputNewBranchName));
        branch := o.branchName;
      }
      ghost var t3 := trace;
      var message;
      if source.FromPrompt? {
        Record(Ask(InputCommitMessage(source.initial, source.mergeOf)));
        message := o.message;
      } else {
        message := Some(inputBox);
      }
      ghost var unsaved, checked := UnsavedCheck(documents, o.unsavedPick).0, Validation(repo, scope0, o).events;
      ghost var asked := (if opts.useBranch then [Ask(InputNewBranchName)] else [])
        + (if source.FromPrompt? then [Ask(InputCommitMessage(source.initial, source.mergeOf))] else []);
      assert trace == t2 + asked;
      Appended(t0, unsaved, checked);
      Appended(t0, unsaved + checked, asked);
      assert trace == t0 + CommitPreamble(repo, documents, scope0, opts.useBranch, source, o);
      if message.None? {
        return Ok(false);
      }
      Record(Run(Commit(message.value, opts.scope, branch)));
      Appended(t0, CommitPreamble(repo, documents, scope0, opts.useBranch, source, o), [Run(Commit(message.value, opts.scope, branch))]);
      if o.commitResult.Err? {
        return Err(o.commitResult.error);
      }
      return Ok(true);
    }

    /** `commitWithAnyInput`. */
    method CommitWithAnyInput(repo: RepoView, documents: seq<Uri>, opts: CommitOptions, o: CommitOracle)
      returns (r: Result<(), Error>)
      modifies this, opts
      ensures var f := CommitWithAnyInputFlow(repo, documents, old(opts.scope), opts.useBranch, old(inputBox), o);
        r == f.result && trace == old(trace) + f.events && inputBox == f.inputBox
    {
      var message := inputBox;
      var didCommit := SmartCommit(repo, documents, opts, FromPrompt(message, None), o);
      if didCommit.Err? {
        return Err(didCommit.error);
      }
      if message != [] && didCommit.value {
        inputBox := [];
      }
      return Ok(());
    }

    /** `commit`, `commitStaged`, `commitAll` and `commitBranch`. */
    method CommitCommandRun(command: CommitCommand, repo: RepoView, documents: seq<Uri>, o: CommitOracle)
      returns (r: Result<(), Error>)
      modifies this
      ensures var f := CommitWithAnyInputFlow(repo, documents, OptionsOf(command).0, OptionsOf(command).1,
                                              old(inputBox), o);
        r == f.result && trace == old(trace) + f.events && inputBox == f.inputBox
    {
      var opts := new CommitOptions(OptionsOf(command).0, OptionsOf(command).1);
      r := CommitWithAnyInput(repo, documents, opts, o);
    }

    /** `commitWithInput`. */
    method CommitWithInput(repo: RepoView, documents: seq<Uri>, o: CommitOracle) returns (r: Result<(), Error>)
      modifies this
      ensures var f := CommitWithInputFlow(repo, documents, old(inputBox), o);
        r == f.result && trace == old(trace) + f.events && inputBox == f.inputBox
    {
      var opts := new CommitOptions(UNKNOWN, false);
      var didCommit := SmartCommit(repo, documents, opts, FromInputBox, o);
      if didCommit.Err? {
        return Err(didCommit.error);
      }
      if didCommit.value {
        inputBox := [];
      }
      return Ok(());
    }

    /** `undoOrRedo`. */
    method UndoOrRedoRun(command: UndoCommand, dryRun: Result<seq<char>, Error>, confirmed: bool,
                         performed: Result<(), Error>)
      modifies this
      ensures trace == old(trace) + UndoOrRedoFlow(command, dryRun, confirmed, performed)
      ensures inputBox == old(inputBox)
    {
      Record(Run(UndoOrRedo(command, true)));
      var failure: Option<Error> := None;
      if dryRun.Err? {
        failure := Some(dryRun.error);
      } else {
        Record(Ask(ConfirmUndoOrRedo(command, dryRun.value)));
        if confirmed {
          Record(Run(UndoOrRedo(command, false)));
          if performed.Err? {
            failure := Some(performed.error);
          }
        }
      }
      if failure.Some? && HasCode(failure.value, "NoUndoInformationAvailable") {
        Record(Tell(WarnNoUndoOrRedo(command)));
      }
    }

    /** `branch`. */
    method BranchRun(name: Option<seq<char>>, first: Result<(), Error>, action: Option<BranchExistsAction>,
                     second: Result<(), Error>) returns (r: Result<(), Error>)
      modifies this
      ensures var f := BranchFlow(name, first, action, second); r == f.1 && trace == old(trace) + f.0
      ensures inputBox == old(inputBox)
    {
      Record(Ask(InputNewBranchName));
      if name.None? || name.value == [] {
        return Ok(());
      }
      Record(Run(NewBranch(name.value)));
      if first.Err? && HasCode(first.error, "BranchAlreadyExists") {
        Record(Ask(WarnBranchAlreadyExists(name.value)));
        if action == Some(Reopen) {
          Record(Run(NewBranch(name.value)));
          return second;
        } else if action == Some(UpdateTo) {
          Record(Run(Update(name.value)));
          return second;
        }
      }
      return Ok(());
    }

    /** `openRepository`. */
    method OpenRepository(file: Path, parent: Path, first: Result<(), Error>, confirmed: bool)
      returns (r: Result<(), Error>)
      modifies this
      ensures var f := OpenRepositoryFlow(file, parent, first, confirmed); r == f.1 && trace == old(trace) + f.0
      ensures inputBox == old(inputBox)
    {
      Record(Run(OpenClone(file, parent)));
      if first.Err? {
        if HasCode(first.error, "OperationMustBeforced") {
          Record(Ask(ConfirmOpenNotEmpty(parent)));
          if confirmed {
            Record(Run(OpenCloneForce(file, parent)));
          }
        } else {
          return first;
        }
      }
      return Ok(());
    }

    /** `isItOkayToMerge`. */
    method IsItOkayToMerge(outstanding: bool, unclean: bool) returns (ok: bool)
      modifies this
      ensures var f := OkayToMergeFlow(outstanding, unclean); ok == f.1 && trace == old(trace) + f.0
      ensures inputBox == old(inputBox)
    {
      Record(Ask(CheckOutstandingMerge));
      if !outstanding {
        Record(Ask(CheckUnclean));
      }
      if outstanding || unclean {
        Record(Tell(FocusScm));
        return false;
      }
      return true;
    }

    /** `doMerge`'s handler. */
    method Handle(e: Error) returns (r: Result<(), Error>)
      modifies this
      ensures r == Caught([], old(inputBox), e).result && trace == old(trace) + HandlerEvents(e)
      ensures inputBox == old(inputBox)
    {
      if HasCode(e, "UntrackedFilesDiffer") && e.untrackedFilenames.Some? {
        Record(Tell(ErrorUntrackedFilesDiffer(e.untrackedFilenames.value)));
        return Ok(());
      }
      return Err(e);
    }

    /** `doMerge`. */
    method DoMerge(revision: seq<char>, action: MergeAction, m: MergeOracle) returns (r: Result<(), Error>)
      modifies this
      ensures var f := DoMergeFlow(revision, action, old(inputBox), m);
        r == f.result && trace == old(trace) + f.events && inputBox == f.inputBox
    {
      Record(Run(MergeWith(revision, action)));
      ghost var start := [Run(MergeWith(revision, action))];
      if m.result.Err? {
        r := Handle(m.result.error);
        return;
      }
      var unresolved := m.result.value;
      if unresolved > 0 {
        Record(Tell(WarnUnresolvedFiles(unresolved)));
        return Ok(());
      }
      if m.currentBranch.None? || m.currentBranch.value == [] {
        return Ok(());
      }
      var opts := new CommitOptions(UNKNOWN, false);
      ghost var trace1 := trace;
      var didCommit := SmartCommit(m.after, m.documents, opts, FromPrompt([], Some((m.currentBranch.value, revision))),
                                   m.commit);
      ghost var c := MergeCommit(revision, old(inputBox), m);
      Appended(old(trace), start, c.events);
      if didCommit.Err? {
        r := Handle(didCommit.error);
        Appended(old(trace), start + c.events, HandlerEvents(didCommit.error));
        return;
      }
      if didCommit.value {
        inputBox := [];
      }
      return Ok(());
    }

    /** The checks, the listing and the pick that come before a merge. */
    method PickCandidate(listing: Call, pick: Prompt, outstanding: bool, unclean: bool, picked: Option<seq<char>>)
      returns (go: bool)
      modifies this
      ensures var f := PickStage(listing, pick, outstanding, unclean, picked); go == f.1 && trace == old(trace) + f.0
      ensures inputBox == old(inputBox)
    {
      var ok := IsItOkayToMerge(outstanding, unclean);
      if !ok {
        return false;
      }
      Record(Run(listing));
      Record(Ask(pick));
      Appended(old(trace), OkayToMergeFlow(outstanding, unclean).0, [Run(listing), Ask(pick)]);
      return Chosen(picked);
    }

    /** `mergeCommon` (behind `merge` and `integrate`) and `cherrypick`, by what they list and ask. */
    method PickAndMerge(listing: Call, pick: Prompt, action: MergeAction, outstanding: bool, unclean: bool,
                        picked: Option<seq<char>>, m: MergeOracle) returns (r: Result<(), Error>)
      modifies this
      ensures var f := PickAndMergeFlow(listing, pick, action, outstanding, unclean, picked, old(inputBox), m);
        r == f.result && trace == old(trace) + f.events && inputBox == f.inputBox
    {
      var go := PickCandidate(listing, pick, outstanding, unclean, picked);
      if !go {
        return Ok(());
      }
      r := DoMerge(picked.value, action, m);
      Appended(old(trace), PickStage(listing, pick, outstanding, unclean, picked).0,
               DoMergeFlow(picked.value, action, old(inputBox), m).events);
    }

    /** `merge` and `integrate`. */
    method MergeCommon(action: MergeAction, outstanding: bool, unclean: bool, picked: Option<seq<char>>,
                       m: MergeOracle) returns (r: Result<(), Error>)
      modifies this
      ensures var f := PickAndMergeFlow(GetBranches, PickBranch, action, outstanding, unclean, picked,
                                        old(inputBox), m);
        r == f.result && trace == old(trace) + f.events && inputBox == f.inputBox
    {
      r := PickAndMerge(GetBranches, PickBranch, action, outstanding, unclean, picked, m);
    }

    /** `cherrypick`. */
    method CherrypickRun(outstanding: bool, unclean: bool, picked: Option<seq<char>>, m: MergeOracle)
      returns (r: Result<(), Error>)
      modifies this
      ensures var f := PickAndMergeFlow(GetLogEntries, PickCheckin, Cherrypick, outstanding, unclean, picked,
                                        old(inputBox), m);
        r == f.result && trace == old(trace) + f.events && inputBox == f.inputBox
    {
      r := PickAndMerge(GetLogEntries, PickCheckin, Cherrypick, outstanding, unclean, picked, m);
    }
  }
}

/**
 * The pure decisions of the command layer: which two versions the diff view compares for
 * a resource and what the view is called, which resources each file command acts on,
 * which group answers for the resource under the cursor, and which repository a
 * command runs against.
 */
module CommandViews {
  import opened Wrappers
  import opened Resources

  /** The merge status a resource carries. */
  datatype MergeStatus = NONE | UNRESOLVED | RESOLVED

  /**
   * A `FossilResource` as the diff commands see it: the listed resource, its merge status
   * and the URI of its original (pre-change) version.
   */
  datatype ViewResource = ViewResource(resource: Resource, mergeStatus: MergeStatus, original: Uri)

  /** The query part of an editor URI: none, a literal text, or `JSON.stringify({path})`. */
  datatype Query = NoQuery | QueryText(text: seq<char>) | PathRef(path: Path)

  /** An editor URI with its query. */
  datatype ViewUri = ViewUri(scheme: seq<char>, path: Path, query: Query)

  function AsView(u: Uri): ViewUri {
    ViewUri(u.scheme, u.path, NoQuery)
  }

  /** `toFossilUri(uri)` without a revision: the version of the file the tool has on record. */
  function ToFossilUri(u: Uri): (v: ViewUri)
    ensures v.scheme !in {"file", "fossil"}
    ensures v.path == u.path && v.query.PathRef? && v.query.path == u.path
  {
    ViewUri("fossil-original", u.path, PathRef(u.path))
  }

  /** The statuses whose files have no recorded version to compare against. */
  const NoBaseline: set<Status> := {ADDED, IGNORED, UNTRACKED, UNMODIFIED}

  /** `getLeftResource`: the recorded version, unless the file has none (or is a rename without a source). */
  function GetLeftResource(v: ViewResource): (left: Option<ViewUri>)
    ensures left.None? <==>
      v.resource.status in NoBaseline || (v.resource.status == RENAMED && v.resource.rename.None?)
    ensures left.Some? ==> left.value == ToFossilUri(v.original)
  {
    match v.resource.status
    case RENAMED => if v.resource.rename.Some? then Some(ToFossilUri(v.original)) else None
    case ADDED => None
    case IGNORED => None
    case UNTRACKED => None
    case UNMODIFIED => None
    case _ => Some(ToFossilUri(v.original))
  }

  /** An unresolved merge of a file that still exists shows the merged version. */
  predicate ShowsMerge(v: ViewResource) {
    v.mergeStatus == UNRESOLVED && v.resource.status != MISSING && v.resource.status != DELETED
  }

  /**
   * `getRightResource`: the merged version for an unresolved merge, an empty document for a
   * file that is gone, and the file itself otherwise; always at the resource's own path.
   */
  function GetRightResource(v: ViewResource): (right: ViewUri)
    ensures right.path == v.resource.uri.path
    ensures ShowsMerge(v) ==> right == ViewUri("fossil", v.resource.uri.path, NoQuery)
    ensures !ShowsMerge(v) && v.resource.status in {DELETED, MISSING} ==>
      right == ViewUri("fossil", v.resource.uri.path, QueryText("empty"))
    ensures !ShowsMerge(v) && v.resource.status !in {DELETED, MISSING} ==> right == AsView(v.resource.uri)
  {
    if ShowsMerge(v) then ViewUri("fossil", v.resource.uri.path, NoQuery)
    else if v.resource.status == DELETED || v.resource.status == MISSING then
      ViewUri("fossil", v.resource.uri.path, QueryText("empty"))
    else AsView(v.resource.uri)
  }

  /** `path.basename`: what follows the last `/`. */
  function Basename(p: Path): (b: Path)
    ensures |b| <= |p| && b == p[|p| - |b|..]
    ensures '/' !in b
    ensures |b| < |p| ==> p[|p| - |b| - 1] == '/'
  {
    if p == [] || p[|p| - 1] == '/' then [] else Basename(p[..|p| - 1]) + [p[|p| - 1]]
  }

  /** The statuses whose diff view has a title of its own. */
  const Titled: set<Status> := {MODIFIED, ADDED, CONFLICT, RENAMED, DELETED, MISSING}

  /** What the title says after the file name, by merge status and then by status. */
  function TitleSuffix(v: ViewResource): (suffix: Option<seq<char>>)
    ensures suffix.None? <==> !ShowsMerge(v) && v.resource.status !in Titled
    ensures suffix.Some? ==> |suffix.value| > 0
  {
    if ShowsMerge(v) then Some(" (local <-> other)")
    else match v.resource.status
      case MODIFIED => Some(" (Working Directory)")
      case ADDED => Some(" (Working Directory)")
      case CONFLICT => Some(" (Working Directory)")
      case RENAMED => Some(" (Renamed)")
      case DELETED => Some(" (Deleted)")
      case MISSING => Some(" (Missing)")
      case _ => None
  }

  /**
   * `getTitle`: the file name followed by what the comparison shows, or the empty title for
   * files that are neither changed nor in an unresolved merge.
   */
  function GetTitle(v: ViewResource): (title: seq<char>)
    ensures |title| == 0 ==> !ShowsMerge(v) && v.resource.status !in Titled
    ensures !ShowsMerge(v) && v.resource.status !in Titled ==> |title| == 0
    ensures |title| > 0 ==> Basename(v.resource.uri.path) < title
  {
    var suffix := TitleSuffix(v);
    if suffix.None? then "" else Basename(v.resource.uri.path) + suffix.value
  }

  /**
   * A view with a title compares two different versions: a deleted or missing file shows
   * its recorded version against an empty document, a merge shows the merged version.
   */
  lemma TitledViewsCompare(v: ViewResource)
    requires v.resource.uri.scheme == "file"
    requires |GetTitle(v)| > 0
    ensures GetRightResource(v).scheme == "fossil" <==> ShowsMerge(v) || v.resource.status in {DELETED, MISSING}
    ensures v.resource.status in {DELETED, MISSING} ==> GetLeftResource(v) == Some(ToFossilUri(v.original))
  {
  }

  // ---------------------------------------------------------------------------
  // Which resources the file commands act on

  /** An argument a file command receives: a `FossilResource`, or some other resource state. */
  datatype Arg = FossilArg(resource: Resource) | OtherArg(uri: Uri)

  datatype FileCommand = AddFiles | IgnoreFiles | RemoveFiles | StageFiles | UnstageFiles

  /** The groups each file command accepts resources from. */
  function AcceptedGroups(kind: FileCommand): set<GroupId> {
    match kind
    case AddFiles => {"untracked"}
    case IgnoreFiles => {"untracked"}
    case RemoveFiles => {"working"}
    case StageFiles => {"working", "merge", "untracked"}
    case UnstageFiles => {"staging"}
  }

  /** Resources passed as arguments. */
  function FossilArgs(rs: seq<Resource>): (args: seq<Arg>)
    ensures |args| == |rs| && forall i :: 0 <= i < |rs| ==> args[i] == FossilArg(rs[i])
  {
    seq(|rs|, i requires 0 <= i < |rs| => FossilArg(rs[i]))
  }

  lemma FossilArgsCons(r: Resource, rs: seq<Resource>)
    ensures FossilArgs([r] + rs) == [FossilArg(r)] + FossilArgs(rs)
  {
    var lhs, rhs := FossilArgs([r] + rs), [FossilArg(r)] + FossilArgs(rs);
    forall k | 0 <= k < |lhs|
      ensures lhs[k] == rhs[k]
    {
      if k > 0 {
        assert ([r] + rs)[k] == rs[k - 1];
      }
    }
  }

  /**
   * The `FossilResource` arguments that satisfy `accept` (`filter(s => s instanceof
   * FossilResource && …)`): each accepted one as often as it is passed, in argument order.
   */
  function Selected(args: seq<Arg>, accept: Resource -> bool): (rs: seq<Resource>)
    ensures |rs| <= |args|
    ensures forall r :: r in rs ==> accept(r) && FossilArg(r) in args
    ensures forall r :: FossilArg(r) in args && accept(r) ==> r in rs
  {
    if args == [] then []
    else
      assert args == [args[0]] + args[1..];
      var rest := Selected(args[1..], accept);
      if args[0].FossilArg? && accept(args[0].resource) then [args[0].resource] + rest else rest
  }

  /** The filter keeps each accepted resource as often as it is passed. */
  lemma {:induction false} SelectedCounts(args: seq<Arg>, accept: Resource -> bool)
    ensures forall r :: multiset(Selected(args, accept))[r] == if accept(r) then multiset(args)[FossilArg(r)] else 0
  {
    if args != [] {
      assert args == [args[0]] + args[1..];
      assert multiset(args) == multiset([args[0]]) + multiset(args[1..]);
      SelectedCounts(args[1..], accept);
    }
  }

  /** The filter keeps the accepted resources in argument order. */
  lemma {:induction false} SelectedInOrder(args: seq<Arg>, accept: Resource -> bool)
    ensures OrderedIn(FossilArgs(Selected(args, accept)), args)
  {
    if args != [] {
      assert args == [args[0]] + args[1..];
      var rest := Selected(args[1..], accept);
      SelectedInOrder(args[1..], accept);
      forall x | x in FossilArgs(rest)
        ensures x in args[1..]
      {
        var i :| 0 <= i < |rest| && FossilArgs(rest)[i] == x;
        assert rest[i] in rest;
      }
      OrderedInCons(args[0], args[1..], FossilArgs(rest));
      if args[0].FossilArg? && accept(args[0].resource) {
        FossilArgsCons(args[0].resource, rest);
      }
    }
  }

  /** The filter of a concatenation is the concatenation of the filters. */
  lemma {:induction false} SelectedAppend(a: seq<Arg>, b: seq<Arg>, accept: Resource -> bool)
    ensures Selected(a + b, accept) == Selected(a, accept) + Selected(b, accept)
  {
    if a != [] {
      var t := a[1..];
      assert (a + b)[0] == a[0] && (a + b)[1..] == t + b;
      SelectedAppend(t, b, accept);
      if a[0].FossilArg? && accept(a[0].resource) {
        var x := a[0].resource;
        assert [x] + (Selected(t, accept) + Selected(b, accept)) == ([x] + Selected(t, accept)) + Selected(b, accept);
      }
    } else {
      assert a + b == b;
    }
  }

  /**
   * One argument is kept iff it is an accepted resource. With `SelectedAppend` this fixes
   * the filter's answer for every argument list, order and repeats included.
   */
  lemma SelectedOne(x: Arg, accept: Resource -> bool)
    ensures Selected([x], accept) == if x.FossilArg? && accept(x.resource) then [x.resource] else []
  {
    assert [x][1..] == [];
  }

  /** The resource states a command without arguments falls back on: the one under the cursor. */
  function StatesOrCursor(args: seq<Arg>, scm: Option<Resource>): seq<Arg> {
    if args == [] && scm.Some? then [FossilArg(scm.value)] else args
  }

  /**
   * What `add`, `ignore`, `remove`, `stage` and `unstage` pass on: the resources of the
   * accepted groups among the arguments, or among the resource under the cursor when
   * there are none; the command calls the repository only when this is non-empty.
   */
  function FileCommandTargets(kind: FileCommand, args: seq<Arg>, scm: Option<Resource>): seq<Resource> {
    Selected(StatesOrCursor(args, scm), (r: Resource) => r.group in AcceptedGroups(kind))
  }

  /**
   * The filter keeps only resources of the accepted groups: among the arguments, exactly
   * the accepted ones; with no arguments, the resource under the cursor when its group is
   * accepted, and nothing otherwise.
   */
  lemma FileCommandFilter(kind: FileCommand, args: seq<Arg>, scm: Option<Resource>)
    ensures var rs := FileCommandTargets(kind, args, scm);
      && (forall r :: r in rs ==> r.group in AcceptedGroups(kind))
      && (args != [] ==> forall r :: r in rs <==> FossilArg(r) in args && r.group in AcceptedGroups(kind))
      && (args == [] ==> (rs != [] <==> scm.Some? && scm.value.group in AcceptedGroups(kind)))
      && (args == [] && rs != [] ==> rs == [scm.value])
  {
  }

  /** The URIs a command passes to the repository. */
  function UrisOf(rs: seq<Resource>): (us: seq<Uri>)
    ensures |us| == |rs| && forall i :: 0 <= i < |rs| ==> us[i] == rs[i].uri
  {
    seq(|rs|, i requires 0 <= i < |rs| => rs[i].uri)
  }

  /** `partition(xs, p)`: those that satisfy `p`, then those that do not, each in order. */
  function Partition(rs: seq<Resource>, p: Resource -> bool): (parts: (seq<Resource>, seq<Resource>))
    ensures |parts.0| + |parts.1| == |rs|
    ensures forall r :: r in parts.0 <==> r in rs && p(r)
    ensures forall r :: r in parts.1 <==> r in rs && !p(r)
  {
    if rs == [] then ([], [])
    else
      assert rs == [rs[0]] + rs[1..];
      var rest := Partition(rs[1..], p);
      if p(rs[0]) then ([rs[0]] + rest.0, rest.1) else (rest.0, [rs[0]] + rest.1)
  }

  /** Each part keeps its resources as often as `rs` lists them, in the order of `rs`. */
  lemma {:induction false} PartitionInOrder(rs: seq<Resource>, p: Resource -> bool)
    ensures var parts := Partition(rs, p);
      && (forall r :: multiset(parts.0)[r] == if p(r) then multiset(rs)[r] else 0)
      && (forall r :: multiset(parts.1)[r] == if p(r) then 0 else multiset(rs)[r])
      && OrderedIn(parts.0, rs) && OrderedIn(parts.1, rs)
  {
    if rs != [] {
      assert rs == [rs[0]] + rs[1..];
      var rest := Partition(rs[1..], p);
      PartitionInOrder(rs[1..], p);
      OrderedInCons(rs[0], rs[1..], rest.0);
      OrderedInCons(rs[0], rs[1..], rest.1);
    }
  }

  /** Partitioning a concatenation concatenates the parts. */
  lemma {:induction false} PartitionAppend(a: seq<Resource>, b: seq<Resource>, p: Resource -> bool)
    ensures Partition(a + b, p) == (Partition(a, p).0 + Partition(b, p).0, Partition(a, p).1 + Partition(b, p).1)
  {
    if a != [] {
      assert (a + b)[0] == a[0] && (a + b)[1..] == a[1..] + b;
      PartitionAppend(a[1..], b, p);
      var ra, rb := Partition(a[1..], p), Partition(b, p);
      assert [a[0]] + (ra.0 + rb.0) == ([a[0]] + ra.0) + rb.0;
      assert [a[0]] + (ra.1 + rb.1) == ([a[0]] + ra.1) + rb.1;
    } else {
      var rb := Partition(b, p);
      assert a + b == b && [] + rb.0 == rb.0 && [] + rb.1 == rb.1;
    }
  }

  /**
   * One resource goes to the part its test picks. With `PartitionAppend` this fixes both
   * parts for every input, order and repeats included.
   */
  lemma PartitionOne(x: Resource, p: Resource -> bool)
    ensures Partition([x], p) == if p(x) then ([x], []) else ([], [x])
  {
    assert [x][1..] == [] && [x] + [] == [x];
  }

  /** What `revert` decides: the dirty resources, and which of them need a confirmation. */
  datatype RevertPlan = RevertPlan(targets: seq<Resource>, discard: seq<Resource>, added: seq<Resource>)

  /**
   * `revert`: acts on the arguments (or the resource under the cursor) whose status is
   * dirty; those not `ADDED` lose changes and need a confirmation, the `ADDED` ones are
   * listed beside them.
   */
  function PlanRevert(args: seq<Arg>, scm: Option<Resource>, dirty: set<Status>): (plan: RevertPlan)
    ensures forall r :: r in plan.targets <==> FossilArg(r) in StatesOrCursor(args, scm) && r.status in dirty
    ensures forall r :: r in plan.discard <==> r in plan.targets && r.status != ADDED
    ensures forall r :: r in plan.added <==> r in plan.targets && r.status == ADDED
    ensures |plan.discard| + |plan.added| == |plan.targets|
  {
    var targets := Selected(StatesOrCursor(args, scm), (r: Resource) => r.status in dirty);
    var parts := Partition(targets, (r: Resource) => r.status != ADDED);
    RevertPlan(targets, parts.0, parts.1)
  }

  /** A revert needs a confirmation exactly when some dirty target is not newly added. */
  lemma RevertAsksUnlessAllAdded(args: seq<Arg>, scm: Option<Resource>, dirty: set<Status>)
    ensures PlanRevert(args, scm, dirty).discard == [] <==>
      forall r :: r in PlanRevert(args, scm, dirty).targets ==> r.status == ADDED
  {
    var plan := PlanRevert(args, scm, dirty);
    if plan.discard != [] {
      assert plan.discard[0] in plan.discard;
    }
  }

  // ---------------------------------------------------------------------------
  // The resource under the cursor

  /** The five groups of the repository that holds a URI. */
  datatype RepoGroups = RepoGroups(working: seq<Resource>, staging: seq<Resource>, untracked: seq<Resource>,
                                   merge: seq<Resource>, conflict: seq<Resource>)

  /** The groups in the order `getSCMResource` asks them. */
  function LookupOrder(g: RepoGroups): seq<seq<Resource>> {
    [g.working, g.staging, g.untracked, g.merge, g.conflict]
  }

  /** The position of the first of `groups` that lists the key (`|groups|` when none does). */
  ghost function FirstHolder(groups: seq<seq<Resource>>, key: UriKey): (i: nat)
    ensures i <= |groups|
    ensures forall j :: 0 <= j < i ==> key !in Keys(groups[j])
    ensures i < |groups| ==> key in Keys(groups[i])
  {
    if groups == [] then 0
    else if key in Keys(groups[0]) then 0
    else
      assert forall j :: 1 <= j < |groups| ==> groups[j] == groups[1..][j - 1];
      1 + FirstHolder(groups[1..], key)
  }

  /** The groups are asked in turn; the first that lists the key answers. */
  function FirstLookup(groups: seq<seq<Resource>>, key: UriKey): (r: Option<Resource>)
    ensures var i := FirstHolder(groups, key);
      r == if i < |groups| then Lookup(groups[i], key) else None
  {
    if groups == [] then None
    else
      var here := Lookup(groups[0], key);
      if here.Some? then here
      else
        assert forall j :: 1 <= j < |groups| ==> groups[j] == groups[1..][j - 1];
        FirstLookup(groups[1..], key)
  }

  /**
   * `getSCMResource(uri)`: the URI given, or else the active editor's; a `fossil:` URI is
   * taken as the file it shows, query and all; for a file in a repository, the first of the
   * working, staging, untracked, merge and conflict groups that lists it answers. A URI
   * with a query keeps it in its string form, which no listed file's URI has, so every
   * group misses it.
   */
  function GetScmResource(uri: Option<ViewUri>, active: Option<ViewUri>, repository: Uri -> Option<RepoGroups>)
    : (r: Option<Resource>)
    ensures var given := if uri.Some? then uri else active;
      var listed := given.Some? && given.value.scheme in {"file", "fossil"} && given.value.query == NoQuery
        && repository(FileUri(given.value.path)).Some?;
      && (r.Some? ==> listed)
      && (listed ==> r == FirstLookup(LookupOrder(repository(FileUri(given.value.path)).value),
                                      FileUri(given.value.path).ToString()))
  {
    var given := if uri.Some? then uri else active;
    if given.None? then None
    else
      var u := given.value;
      if u.scheme != "file" && u.scheme != "fossil" then None
      else
        var file := FileUri(u.path);
        var repo := repository(file);
        if repo.None? then None
        else if u.query != NoQuery then None
        else FirstLookup(LookupOrder(repo.value), file.ToString())
  }

  /**
   * The right side shown for a deleted or missing file (`fossil:` with the query `empty`)
   * has no resource under the cursor: commands invoked from that editor find nothing.
   */
  lemma EmptySideHasNoResource(v: ViewResource, active: Option<ViewUri>, repository: Uri -> Option<RepoGroups>)
    requires v.resource.status in {DELETED, MISSING}
    ensures GetScmResource(Some(GetRightResource(v)), active, repository) == None
  {
  }

  /** The left side of a diff (`fossil-original:`) has no resource under the cursor either. */
  lemma OriginalSideHasNoResource(v: ViewResource, active: Option<ViewUri>, repository: Uri -> Option<RepoGroups>)
    requires GetLeftResource(v).Some?
    ensures GetScmResource(GetLeftResource(v), active, repository) == None
  {
  }

  /** The cursor's resource comes from the working group whenever that lists the file. */
  lemma WorkingGroupFirst(g: RepoGroups, key: UriKey)
    requires key in Keys(g.working)
    ensures FirstLookup(LookupOrder(g), key) == Lookup(g.working, key)
  {
  }

  /** A file listed only in the conflict group is found there, after the other four are asked. */
  lemma ConflictGroupLast(g: RepoGroups, key: UriKey)
    requires key !in Keys(g.working) && key !in Keys(g.staging) && key !in Keys(g.untracked) && key !in Keys(g.merge)
    ensures FirstLookup(LookupOrder(g), key) == Lookup(g.conflict, key)
  {
    var groups := LookupOrder(g);
    assert groups[0] == g.working && groups[1] == g.staging && groups[2] == g.untracked;
    assert groups[3] == g.merge && groups[4] == g.conflict;
  }

  // ---------------------------------------------------------------------------
  // Which repository a command runs against

  /** How a command's target repository was settled. */
  datatype Resolution<R> = NoRepositoryNeeded | Target(repository: R) | Skipped

  /**
   * A command that needs a repository gets the one holding its first argument, else the
   * only open one, else the one the user picks; when the user picks none it does nothing.
   * `asked` says whether the user was asked to pick.
   */
  function ResolveRepository<R>(needsRepository: bool, guessed: Option<R>, repositories: seq<R>,
                                picked: Option<R>): (res: (Resolution<R>, bool))
    ensures res.1 <==> needsRepository && guessed.None? && |repositories| != 1
    ensures !needsRepository ==> res.0 == NoRepositoryNeeded
    ensures needsRepository && guessed.Some? ==> res.0 == Target(guessed.value)
    ensures needsRepository && guessed.None? && |repositories| == 1 ==> res.0 == Target(repositories[0])
    ensures res.1 ==> res.0 == (if picked.Some? then Target(picked.value) else Skipped)
  {
    if !needsRepository then (NoRepositoryNeeded, false)
    else if guessed.Some? then (Target(guessed.value), false)
    else if |repositories| == 1 then (Target(repositories[0]), false)
    else ((if picked.Some? then Target(picked.value) else Skipped), true)
  }

  /**
   * What a dispatched command settles to: nothing when it was skipped, and otherwise the
   * command's own outcome. The `try` around `return result` sees a promise, never the
   * error inside it, so a failing command fails the dispatch and no error prompt follows.
   */
  function Dispatched<R, E>(res: Resolution<R>, outcome: Result<(), E>): (r: Result<(), E>)
    ensures res.Skipped? ==> r == Ok(())
    ensures !res.Skipped? ==> r == outcome
  {
    if res.Skipped? then Ok(()) else outcome
  }
}

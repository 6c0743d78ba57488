/**
 * `groupStatuses`: each record of a status report becomes a new resource in exactly one
 * of the four static groups (conflict, staging, working, untracked), and all four groups
 * are replaced. The one piece of state carried over is staging membership: a record
 * whose URI was staged before the call stays staged unless it is EXTRA or CONFLICT.
 */
module StatusGrouping {
  import opened Wrappers
  import opened Resources
  import opened ResourceGroups

  datatype Bucket = ConflictBucket | StagingBucket | WorkingBucket | UntrackedBucket

  /** `chooseResourcesAndGroup`: EXTRA first, then CONFLICT, then prior staging membership. */
  function Route(status: Status, staged: bool): (b: Bucket)
    ensures b == UntrackedBucket <==> status == EXTRA
    ensures b == ConflictBucket <==> status == CONFLICT
    ensures b == StagingBucket <==> staged && status != EXTRA && status != CONFLICT
  {
    if status == EXTRA then UntrackedBucket
    else if status == CONFLICT then ConflictBucket
    else if staged then StagingBucket
    else WorkingBucket
  }

  function RecordUri(root: Path, raw: FileStatus): Uri {
    FileUri(Join(root, raw.path))
  }

  /** The rename source, when the record names a non-empty one. */
  function RenameUri(root: Path, raw: FileStatus): Option<Uri> {
    if raw.rename.Some? && raw.rename.value != "" then Some(FileUri(Join(root, raw.rename.value))) else None
  }

  function MakeResource(gid: GroupId, root: Path, raw: FileStatus): Resource {
    Resource(gid, RecordUri(root, raw), raw.status, raw.klass, RenameUri(root, raw))
  }

  /** Whether the route of `raw` is `b`, given the URI keys staged before the call. */
  ghost predicate RoutedTo(root: Path, raw: FileStatus, staged: set<UriKey>, b: Bucket) {
    Route(raw.status, RecordUri(root, raw).ToString() in staged) == b
  }

  /** The resources the loop pushes for bucket `b`, in report order, each owned by group `gid`. */
  ghost function Bucketed(root: Path, fs: seq<FileStatus>, staged: set<UriKey>, b: Bucket, gid: GroupId): seq<Resource> {
    if fs == [] then []
    else
      var rest := Bucketed(root, fs[..|fs| - 1], staged, b, gid);
      if RoutedTo(root, fs[|fs| - 1], staged, b) then rest + [MakeResource(gid, root, fs[|fs| - 1])] else rest
  }

  method GroupStatuses(root: Path, conflict: FossilResourceGroup, staging: FossilResourceGroup,
                       working: FossilResourceGroup, untracked: FossilResourceGroup,
                       fileStatuses: seq<FileStatus>)
    requires staging.Valid()
    requires conflict != staging && conflict != working && conflict != untracked
    requires staging != working && staging != untracked && working != untracked
    modifies conflict, staging, working, untracked
    ensures conflict.Valid() && staging.Valid() && working.Valid() && untracked.Valid()
    ensures conflict.resourceStates == Bucketed(root, fileStatuses, old(Keys(staging.resourceStates)), ConflictBucket, conflict.id)
    ensures staging.resourceStates == Bucketed(root, fileStatuses, old(Keys(staging.resourceStates)), StagingBucket, staging.id)
    ensures working.resourceStates == Bucketed(root, fileStatuses, old(Keys(staging.resourceStates)), WorkingBucket, working.id)
    ensures untracked.resourceStates == Bucketed(root, fileStatuses, old(Keys(staging.resourceStates)), UntrackedBucket, untracked.id)
  {
    ghost var staged := Keys(staging.resourceStates);
    IndexOfKeys(staging.resourceStates);
    var workingDirectoryResources: seq<Resource> := [];
    var stagingResources: seq<Resource> := [];
    var conflictResources: seq<Resource> := [];
    var untrackedResources: seq<Resource> := [];
    var i := 0;
    while i < |fileStatuses|
      invariant 0 <= i <= |fileStatuses|
      invariant conflictResources == Bucketed(root, fileStatuses[..i], staged, ConflictBucket, conflict.id)
      invariant stagingResources == Bucketed(root, fileStatuses[..i], staged, StagingBucket, staging.id)
      invariant workingDirectoryResources == Bucketed(root, fileStatuses[..i], staged, WorkingBucket, working.id)
      invariant untrackedResources == Bucketed(root, fileStatuses[..i], staged, UntrackedBucket, untracked.id)
    {
      var raw := fileStatuses[i];
      assert fileStatuses[..i + 1][..i] == fileStatuses[..i];
      var uri := FileUri(Join(root, raw.path));
      var renameUri := if raw.rename.Some? && raw.rename.value != "" then Some(FileUri(Join(root, raw.rename.value))) else None;
      if raw.status == EXTRA {
        untrackedResources := untrackedResources + [Resource(untracked.id, uri, raw.status, raw.klass, renameUri)];
      } else if raw.status == CONFLICT {
        conflictResources := conflictResources + [Resource(conflict.id, uri, raw.status, raw.klass, renameUri)];
      } else if staging.IncludesUri(uri) {
        stagingResources := stagingResources + [Resource(staging.id, uri, raw.status, raw.klass, renameUri)];
      } else {
        workingDirectoryResources := workingDirectoryResources + [Resource(working.id, uri, raw.status, raw.klass, renameUri)];
      }
      i := i + 1;
    }
    assert fileStatuses[..i] == fileStatuses;
    conflict.UpdateResources(conflictResources);
    staging.UpdateResources(stagingResources);
    working.UpdateResources(workingDirectoryResources);
    untracked.UpdateResources(untrackedResources);
  }

  // ---------------------------------------------------------------------------
  // Properties of the classification

  /**
   * A resource is in bucket `b` exactly when it was made, for `b`'s group, from a record
   * that routes to `b`.
   */
  lemma {:induction false} BucketedMembers(root: Path, fs: seq<FileStatus>, staged: set<UriKey>, b: Bucket, gid: GroupId)
    ensures forall r :: r in Bucketed(root, fs, staged, b, gid) <==>
      exists i :: 0 <= i < |fs| && r == MakeResource(gid, root, fs[i]) && RoutedTo(root, fs[i], staged, b)
  {
    if fs != [] {
      var p := fs[..|fs| - 1];
      BucketedMembers(root, p, staged, b, gid);
      forall r | r in Bucketed(root, fs, staged, b, gid)
        ensures exists i :: 0 <= i < |fs| && r == MakeResource(gid, root, fs[i]) && RoutedTo(root, fs[i], staged, b)
      {
        if r in Bucketed(root, p, staged, b, gid) {
          var i :| 0 <= i < |p| && r == MakeResource(gid, root, p[i]) && RoutedTo(root, p[i], staged, b);
          assert fs[i] == p[i];
        } else {
          assert r == MakeResource(gid, root, fs[|fs| - 1]);
        }
      }
      forall r | exists i :: 0 <= i < |fs| && r == MakeResource(gid, root, fs[i]) && RoutedTo(root, fs[i], staged, b)
        ensures r in Bucketed(root, fs, staged, b, gid)
      {
        var i :| 0 <= i < |fs| && r == MakeResource(gid, root, fs[i]) && RoutedTo(root, fs[i], staged, b);
        if i < |fs| - 1 {
          assert p[i] == fs[i];
        }
      }
    }
  }

  /** Every record yields exactly one resource: the four buckets together are as long as the report. */
  lemma {:induction false} BucketedSizes(root: Path, fs: seq<FileStatus>, staged: set<UriKey>,
                                         gc: GroupId, gs: GroupId, gw: GroupId, gu: GroupId)
    ensures |Bucketed(root, fs, staged, ConflictBucket, gc)| + |Bucketed(root, fs, staged, StagingBucket, gs)|
          + |Bucketed(root, fs, staged, WorkingBucket, gw)| + |Bucketed(root, fs, staged, UntrackedBucket, gu)| == |fs|
  {
    if fs != [] {
      BucketedSizes(root, fs[..|fs| - 1], staged, gc, gs, gw, gu);
    }
  }

  ghost predicate DistinctPaths(fs: seq<FileStatus>) {
    forall i, j :: 0 <= i < j < |fs| ==> fs[i].path != fs[j].path
  }

  /** With distinct paths in the report, a URI key identifies its record. */
  lemma KeyDeterminesRecord(root: Path, fs: seq<FileStatus>, i: int, j: int)
    requires DistinctPaths(fs)
    requires 0 <= i < |fs| && 0 <= j < |fs|
    requires RecordUri(root, fs[i]).ToString() == RecordUri(root, fs[j]).ToString()
    ensures i == j
  {
    FileKeyInjective(root, fs[i].path, fs[j].path);
  }

  /** With distinct paths in the report, no URI is in two of the four groups. */
  lemma BucketsDisjoint(root: Path, fs: seq<FileStatus>, staged: set<UriKey>,
                        b1: Bucket, g1: GroupId, b2: Bucket, g2: GroupId)
    requires DistinctPaths(fs)
    requires b1 != b2
    ensures Keys(Bucketed(root, fs, staged, b1, g1)) !! Keys(Bucketed(root, fs, staged, b2, g2))
  {
    BucketedMembers(root, fs, staged, b1, g1);
    BucketedMembers(root, fs, staged, b2, g2);
    forall k | k in Keys(Bucketed(root, fs, staged, b1, g1)) && k in Keys(Bucketed(root, fs, staged, b2, g2))
      ensures false
    {
      var r1 :| r1 in Bucketed(root, fs, staged, b1, g1) && KeyOf(r1) == k;
      var r2 :| r2 in Bucketed(root, fs, staged, b2, g2) && KeyOf(r2) == k;
      var i :| 0 <= i < |fs| && r1 == MakeResource(g1, root, fs[i]) && RoutedTo(root, fs[i], staged, b1);
      var j :| 0 <= j < |fs| && r2 == MakeResource(g2, root, fs[j]) && RoutedTo(root, fs[j], staged, b2);
      KeyDeterminesRecord(root, fs, i, j);
    }
  }

  /**
   * Where the record at index `i` lands: EXTRA in untracked and CONFLICT in conflict even
   * when it was staged; any other status in staging exactly when its URI was staged
   * before the call, and in working otherwise.
   */
  lemma RecordPlacement(root: Path, fs: seq<FileStatus>, staged: set<UriKey>, gids: map<Bucket, GroupId>, i: int)
    requires 0 <= i < |fs|
    requires forall b :: b in gids
    ensures var b := Route(fs[i].status, RecordUri(root, fs[i]).ToString() in staged);
      MakeResource(gids[b], root, fs[i]) in Bucketed(root, fs, staged, b, gids[b])
    ensures fs[i].status == EXTRA ==> Route(fs[i].status, RecordUri(root, fs[i]).ToString() in staged) == UntrackedBucket
    ensures fs[i].status == CONFLICT ==> Route(fs[i].status, RecordUri(root, fs[i]).ToString() in staged) == ConflictBucket
    ensures fs[i].status != EXTRA && fs[i].status != CONFLICT ==>
      (Route(fs[i].status, RecordUri(root, fs[i]).ToString() in staged) == StagingBucket
       <==> RecordUri(root, fs[i]).ToString() in staged)
    ensures fs[i].status != EXTRA && fs[i].status != CONFLICT && RecordUri(root, fs[i]).ToString() !in staged ==>
      Route(fs[i].status, RecordUri(root, fs[i]).ToString() in staged) == WorkingBucket
  {
    var b := Route(fs[i].status, RecordUri(root, fs[i]).ToString() in staged);
    BucketedMembers(root, fs, staged, b, gids[b]);
  }

  /**
   * With nothing staged, staging stays empty and every record that is neither EXTRA nor
   * CONFLICT (a MISSING, ADDED, RENAMED or merged MODIFIED file) lands in working.
   */
  lemma {:induction false} NothingStaged(root: Path, fs: seq<FileStatus>, gs: GroupId, gw: GroupId)
    ensures Bucketed(root, fs, {}, StagingBucket, gs) == []
    ensures forall i :: 0 <= i < |fs| && fs[i].status != EXTRA && fs[i].status != CONFLICT ==>
      MakeResource(gw, root, fs[i]) in Bucketed(root, fs, {}, WorkingBucket, gw)
  {
    BucketedMembers(root, fs, {}, WorkingBucket, gw);
    if fs != [] {
      NothingStaged(root, fs[..|fs| - 1], gs, gw);
    }
  }

  /**
   * Stickiness: a record whose URI stays in the staging group across a refresh is
   * classified as staged again, even when its status alone would put it in working.
   */
  lemma StagingIsSticky(root: Path, fs: seq<FileStatus>, staged: set<UriKey>, gs: GroupId, i: int)
    requires 0 <= i < |fs|
    requires fs[i].status == MODIFIED && RecordUri(root, fs[i]).ToString() in staged
    ensures MakeResource(gs, root, fs[i]) in Bucketed(root, fs, staged, StagingBucket, gs)
  {
    BucketedMembers(root, fs, staged, StagingBucket, gs);
  }
}

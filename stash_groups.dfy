/**
 * The registry of dynamic stash groups: one resource group per saved stash, reconciled
 * against the current stash list on every refresh.  Disposing a group's UI handle is
 * recorded in a ghost log, so that "each vanished group is disposed exactly once" is a
 * statement about that log.
 */
module StashGroups {
  import opened Wrappers
  import opened Resources
  import opened ResourceGroups

  type StashId = nat

  datatype StashItem = StashItem(stashId: StashId, comment: Option<seq<char>>)

  datatype StashFile = StashFile(stashId: StashId, path: Path, status: Status)

  function Digit(d: nat): char
    requires d < 10
  {
    ('0' as int + d) as char
  }

  /** A stash id as a template literal renders it: decimal, no leading zeros. */
  function NatToString(n: nat): (s: seq<char>)
    ensures |s| >= 1
    ensures forall i :: 0 <= i < |s| ==> '0' <= s[i] <= '9'
    decreases n
  {
    if n < 10 then [Digit(n)] else NatToString(n / 10) + [Digit(n % 10)]
  }

  lemma {:induction false} NatToStringInjective(a: nat, b: nat)
    ensures NatToString(a) == NatToString(b) ==> a == b
    decreases a
  {
    if NatToString(a) == NatToString(b) && a >= 10 && b >= 10 {
      var s := NatToString(a);
      assert NatToString(a / 10) == s[..|s| - 1];
      assert NatToString(b / 10) == s[..|s| - 1];
      NatToStringInjective(a / 10, b / 10);
      assert Digit(a % 10) == s[|s| - 1] == Digit(b % 10);
    }
  }

  /** The id `stash-<id>` a new stash group gets. */
  function StashGroupId(id: StashId): GroupId {
    "stash-" + NatToString(id)
  }

  lemma StashGroupIdInjective(a: StashId, b: StashId)
    ensures StashGroupId(a) == StashGroupId(b) <==> a == b
  {
    if StashGroupId(a) == StashGroupId(b) {
      assert NatToString(a) == StashGroupId(a)[6..];
      assert NatToString(b) == StashGroupId(b)[6..];
      NatToStringInjective(a, b);
    }
  }

  /** The text shown for a stash without a comment, or with an empty one. */
  const NoMessage: seq<char> := "(no message)"

  /** `Stash <id>: <comment>`, where a missing or empty comment falls back to `NoMessage`. */
  function FormatStashLabel(stash: StashItem): (text: seq<char>)
    ensures |text| > 8 && text[..6] == "Stash "
  {
    var comment := if stash.comment.Some? && stash.comment.value != [] then stash.comment.value else NoMessage;
    "Stash " + NatToString(stash.stashId) + ": " + comment
  }

  /** The label ends with the stash's comment, or with the fallback text when it has none. */
  lemma StashLabelShowsComment(stash: StashItem)
    ensures stash.comment.Some? && stash.comment.value != [] ==>
      FormatStashLabel(stash)[|FormatStashLabel(stash)| - |stash.comment.value|..] == stash.comment.value
    ensures stash.comment == None || stash.comment == Some([]) ==>
      FormatStashLabel(stash)[|FormatStashLabel(stash)| - |NoMessage|..] == NoMessage
  {
  }

  /** Two stashes with the same label have the same id: the id ends at the first colon. */
  lemma StashLabelIdentifiesStash(a: StashItem, b: StashItem)
    ensures FormatStashLabel(a) == FormatStashLabel(b) ==> a.stashId == b.stashId
  {
    var l := FormatStashLabel(a);
    if l == FormatStashLabel(b) {
      var da, db := NatToString(a.stashId), NatToString(b.stashId);
      FirstColon(a);
      FirstColon(b);
      assert |da| == |db|;
      assert da == l[6..6 + |da|] == db;
      NatToStringInjective(a.stashId, b.stashId);
    }
  }

  /** In a stash label the id's digits run from position 6 up to the first colon. */
  lemma FirstColon(stash: StashItem)
    ensures var l, d := FormatStashLabel(stash), NatToString(stash.stashId);
      && |l| > 6 + |d| && l[6 + |d|] == ':' && l[6..6 + |d|] == d
      && forall i :: 6 <= i < 6 + |d| ==> l[i] != ':'
  {
  }

  /** The resource a stashed file becomes: class `EDITED`, no rename. */
  function StashResource(gid: GroupId, root: Path, file: StashFile): Resource {
    Resource(gid, FileUri(Join(root, file.path)), file.status, "EDITED", None)
  }

  function StashResources(gid: GroupId, root: Path, files: seq<StashFile>): seq<Resource> {
    seq(|files|, i requires 0 <= i < |files| => StashResource(gid, root, files[i]))
  }

  /**
   * A stash group lists one resource per stashed file, in file order, each of its own
   * group, with the file's status, class `EDITED` and no rename; files with distinct
   * paths never collapse into one index entry.
   */
  lemma StashResourcesShape(gid: GroupId, root: Path, files: seq<StashFile>)
    ensures |StashResources(gid, root, files)| == |files|
    ensures forall i :: 0 <= i < |files| ==>
      var r := StashResources(gid, root, files)[i];
      r.group == gid && r.uri == FileUri(Join(root, files[i].path)) && r.status == files[i].status
      && r.klass == "EDITED" && r.rename == None
    ensures (forall i, j :: 0 <= i < j < |files| ==> files[i].path != files[j].path) ==>
      DistinctKeys(StashResources(gid, root, files))
  {
    var rs := StashResources(gid, root, files);
    if forall i, j :: 0 <= i < j < |files| ==> files[i].path != files[j].path {
      forall i, j | 0 <= i < j < |rs|
        ensures KeyOf(rs[i]) != KeyOf(rs[j])
      {
        FileKeyInjective(root, files[i].path, files[j].path);
      }
    }
  }

  /** `stashFilesMap.get(id) || []`. */
  function FilesFor(stashFilesMap: map<StashId, seq<StashFile>>, id: StashId): seq<StashFile> {
    if id in stashFilesMap then stashFilesMap[id] else []
  }

  function IdsOf(stashes: seq<StashItem>): set<StashId> {
    set s | s in stashes :: s.stashId
  }

  /** The registered ids that survive a refresh, in registration order. */
  function Retained(order: seq<StashId>, ids: set<StashId>): seq<StashId> {
    if order == [] then []
    else Retained(order[..|order| - 1], ids) + (if order[|order| - 1] in ids then [order[|order| - 1]] else [])
  }

  /** The registered ids that a refresh disposes, in registration order. */
  function Vanished(order: seq<StashId>, ids: set<StashId>): seq<StashId> {
    if order == [] then []
    else Vanished(order[..|order| - 1], ids) + (if order[|order| - 1] !in ids then [order[|order| - 1]] else [])
  }

  /**
   * The ids a refresh registers anew, in order of first appearance in the stash list:
   * an id is new unless it is `known` already or was seen earlier in the list.
   */
  function FreshIds(stashes: seq<StashItem>, known: set<StashId>): seq<StashId> {
    if stashes == [] then []
    else
      var id := stashes[0].stashId;
      (if id in known then [] else [id]) + FreshIds(stashes[1..], known + {id})
  }

  /** The first stash in the list with this id: the one a new group is labelled from. */
  function FirstWithId(stashes: seq<StashItem>, id: StashId): StashItem
    requires id in IdsOf(stashes)
  {
    if stashes[0].stashId == id then stashes[0] else
      assert stashes == [stashes[0]] + stashes[1..];
      FirstWithId(stashes[1..], id)
  }

  function GroupsOf(order: seq<StashId>, groups: map<StashId, FossilResourceGroup>): seq<FossilResourceGroup>
    requires forall k :: k in order ==> k in groups
  {
    seq(|order|, i requires 0 <= i < |order| => groups[order[i]])
  }

  lemma IdsOfStep(stashes: seq<StashItem>, j: int)
    requires 0 <= j < |stashes|
    ensures IdsOf(stashes[..j + 1]) == IdsOf(stashes[..j]) + {stashes[j].stashId}
  {
    assert stashes[..j + 1] == stashes[..j] + [stashes[j]];
  }

  lemma {:induction false} FirstWithIdAt(stashes: seq<StashItem>, j: int)
    requires 0 <= j < |stashes|
    requires stashes[j].stashId !in IdsOf(stashes[..j])
    ensures stashes[j].stashId in IdsOf(stashes)
    ensures FirstWithId(stashes, stashes[j].stashId) == stashes[j]
  {
    assert stashes[j] in stashes;
    if j > 0 {
      assert stashes[0] in stashes[..j];
      assert stashes[1..][..j - 1] == stashes[1..j];
      forall s | s in stashes[1..j] ensures s in stashes[..j] { }
      FirstWithIdAt(stashes[1..], j - 1);
    }
  }

  lemma {:induction false} RetainedVanishedMembers(order: seq<StashId>, ids: set<StashId>)
    ensures forall k :: k in Retained(order, ids) <==> k in order && k in ids
    ensures forall k :: k in Vanished(order, ids) <==> k in order && k !in ids
  {
    if order != [] {
      var p := order[..|order| - 1];
      RetainedVanishedMembers(p, ids);
      assert order == p + [order[|order| - 1]];
    }
  }

  lemma {:induction false} RetainedDistinct(order: seq<StashId>, ids: set<StashId>)
    requires Distinct(order)
    ensures Distinct(Retained(order, ids))
  {
    if order != [] {
      var p := order[..|order| - 1];
      RetainedDistinct(p, ids);
      RetainedVanishedMembers(p, ids);
      assert order == p + [order[|order| - 1]];
    }
  }

  lemma {:induction false} VanishedDistinct(order: seq<StashId>, ids: set<StashId>)
    requires Distinct(order)
    ensures Distinct(Vanished(order, ids))
  {
    if order != [] {
      var p := order[..|order| - 1];
      VanishedDistinct(p, ids);
      RetainedVanishedMembers(p, ids);
      assert order == p + [order[|order| - 1]];
    }
  }

  lemma {:induction false} FreshIdsMembers(stashes: seq<StashItem>, known: set<StashId>)
    ensures forall k :: k in FreshIds(stashes, known) <==> k in IdsOf(stashes) && k !in known
    ensures Distinct(FreshIds(stashes, known))
  {
    if stashes != [] {
      var id := stashes[0].stashId;
      FreshIdsMembers(stashes[1..], known + {id});
      assert stashes == [stashes[0]] + stashes[1..];
      assert IdsOf(stashes) == {id} + IdsOf(stashes[1..]);
    }
  }

  /** One step of the removal loop over the registration order `entries`. */
  lemma RemovalStep(entries: seq<StashId>, i: int, ids: set<StashId>)
    requires 0 <= i < |entries|
    ensures (Retained(entries[..i], ids) + entries[i..])[|Retained(entries[..i], ids)|] == entries[i]
    ensures entries[i] in entries[i..] && entries[i] in entries[..i + 1]
    ensures forall k :: k in entries[..i + 1] <==> k in entries[..i] || k == entries[i]
    ensures entries[i] in ids ==>
      Retained(entries[..i + 1], ids) + entries[i + 1..] == Retained(entries[..i], ids) + entries[i..]
    ensures entries[i] in ids ==> Vanished(entries[..i + 1], ids) == Vanished(entries[..i], ids)
    ensures entries[i] !in ids ==>
      var o, n := Retained(entries[..i], ids) + entries[i..], |Retained(entries[..i], ids)|;
      Retained(entries[..i + 1], ids) + entries[i + 1..] == o[..n] + o[n + 1..]
    ensures entries[i] !in ids ==> Vanished(entries[..i + 1], ids) == Vanished(entries[..i], ids) + [entries[i]]
  {
    assert entries[..i + 1][..i] == entries[..i];
    assert entries[i..] == [entries[i]] + entries[i + 1..];
  }

  /** The registry once the first `seen` registered ids have been checked against `ids`. */
  ghost function Surviving(groups: map<StashId, FossilResourceGroup>, ids: set<StashId>, seen: seq<StashId>)
    : map<StashId, FossilResourceGroup>
  {
    map k | k in groups && (k in ids || k !in seen) :: groups[k]
  }

  lemma SurvivingStep(groups: map<StashId, FossilResourceGroup>, ids: set<StashId>, entries: seq<StashId>, i: int)
    requires 0 <= i < |entries|
    ensures entries[i] in ids ==> Surviving(groups, ids, entries[..i + 1]) == Surviving(groups, ids, entries[..i])
    ensures entries[i] !in ids ==>
      Surviving(groups, ids, entries[..i + 1]) == Surviving(groups, ids, entries[..i]) - {entries[i]}
  {
    assert entries[..i + 1] == entries[..i] + [entries[i]];
  }

  /** Distinct stashes have distinct groups. */
  /** Every group is well formed and carries the id derived from its stash. */
  ghost predicate GroupsOk(groups: map<StashId, FossilResourceGroup>)
    reads groups.Values
  {
    forall k :: k in groups ==> groups[k].Valid() && groups[k].id == StashGroupId(k)
  }

  /** The groups of the stashes `done` hold the resources of those stashes' files. */
  ghost predicate Filled(groups: map<StashId, FossilResourceGroup>, stashFilesMap: map<StashId, seq<StashFile>>,
                         root: Path, done: set<StashId>)
    reads groups.Values
  {
    forall k :: k in done ==>
      k in groups && groups[k].resourceStates == StashResources(StashGroupId(k), root, FilesFor(stashFilesMap, k))
  }

  /**
   * The registry `groups` with order `order` after the first `j` lookups of the second loop
   * of `updateStashGroups`, which started from `groups1` with order `order1`: every stash seen
   * so far has a group, new groups are appended in first-seen order, are distinct objects and
   * are labelled from that stash.
   */
  ghost predicate Arranged(order: seq<StashId>, groups: map<StashId, FossilResourceGroup>, stashes: seq<StashItem>,
                           j: int, groups1: map<StashId, FossilResourceGroup>, order1: seq<StashId>)
  {
    && 0 <= j <= |stashes|
    && order == OrderAfter(order1, stashes, j, groups1.Keys)
    && groups.Keys == groups1.Keys + IdsUpTo(stashes, j)
    && (forall k :: k in groups1 ==> groups[k] == groups1[k])
    && Injective(groups)
    && (forall k :: k in groups && k !in groups1 ==>
          && k in IdsOf(stashes)
          && groups[k].displayLabel == FormatStashLabel(FirstWithId(stashes, k)))
  }

  /** Once every stash has been looked up, the new ids are exactly the fresh ones, in order. */
  lemma ArrangedDone(order: seq<StashId>, groups: map<StashId, FossilResourceGroup>, stashes: seq<StashItem>,
                     groups1: map<StashId, FossilResourceGroup>, order1: seq<StashId>)
    requires Arranged(order, groups, stashes, |stashes|, groups1, order1)
    ensures order == order1 + FreshIds(stashes, groups1.Keys)
    ensures groups.Keys == groups1.Keys + IdsOf(stashes)
  {
    OrderAfterFresh(order1, stashes, |stashes|, groups1.Keys);
    IdsUpToPrefix(stashes, |stashes|);
    assert stashes[..|stashes|] == stashes;
    assert stashes[|stashes|..] == [];
  }

  /** A lookup that finds the stash's group changes nothing. */
  lemma ArrangedFound(order: seq<StashId>, groups: map<StashId, FossilResourceGroup>, stashes: seq<StashItem>,
                      j: int, groups1: map<StashId, FossilResourceGroup>, order1: seq<StashId>)
    requires 0 <= j < |stashes| && stashes[j].stashId in groups
    requires Arranged(order, groups, stashes, j, groups1, order1)
    ensures Arranged(order, groups, stashes, j + 1, groups1, order1)
  {
    assert order + [] == order;
  }

  /** A lookup that misses registers a new group, labelled from this stash, at the end. */
  lemma ArrangedCreated(order: seq<StashId>, groups: map<StashId, FossilResourceGroup>, stashes: seq<StashItem>,
                        j: int, groups1: map<StashId, FossilResourceGroup>, order1: seq<StashId>, g: FossilResourceGroup)
    requires 0 <= j < |stashes| && stashes[j].stashId !in groups
    requires Arranged(order, groups, stashes, j, groups1, order1)
    requires forall k :: k in groups ==> groups[k] != g
    requires g.displayLabel == FormatStashLabel(stashes[j])
    ensures Arranged(order + [stashes[j].stashId], groups[stashes[j].stashId := g], stashes, j + 1, groups1, order1)
  {
    IdsUpToPrefix(stashes, j);
    FirstWithIdAt(stashes, j);
  }

  /** Registering a new, well-formed group under a fresh key keeps every group well formed and filled. */
  lemma Registering(groups: map<StashId, FossilResourceGroup>, stashFilesMap: map<StashId, seq<StashFile>>,
                    root: Path, done: set<StashId>, id: StashId, g: FossilResourceGroup)
    requires id !in groups
    requires GroupsOk(groups) && g.Valid() && g.id == StashGroupId(id)
    requires Filled(groups, stashFilesMap, root, done)
    ensures GroupsOk(groups[id := g])
    ensures Filled(groups[id := g], stashFilesMap, root, done)
  {
  }

  ghost predicate Injective(groups: map<StashId, FossilResourceGroup>) {
    forall a, b :: a in groups && b in groups && a != b ==> groups[a] != groups[b]
  }

  /** The ids of the first `j` stashes, one pass at a time. */
  ghost function IdsUpTo(stashes: seq<StashItem>, j: nat): set<StashId>
    requires j <= |stashes|
  {
    if j == 0 then {} else IdsUpTo(stashes, j - 1) + {stashes[j - 1].stashId}
  }

  lemma {:induction false} IdsUpToPrefix(stashes: seq<StashItem>, j: nat)
    requires j <= |stashes|
    ensures IdsUpTo(stashes, j) == IdsOf(stashes[..j])
  {
    if j > 0 {
      IdsUpToPrefix(stashes, j - 1);
      IdsOfStep(stashes, j - 1);
    } else {
      assert stashes[..0] == [];
    }
  }

  /** The registration order after the first `j` passes of the second loop, one pass at a time. */
  ghost function OrderAfter(order1: seq<StashId>, stashes: seq<StashItem>, j: nat, known: set<StashId>): seq<StashId>
    requires j <= |stashes|
  {
    if j == 0 then order1
    else
      var id := stashes[j - 1].stashId;
      OrderAfter(order1, stashes, j - 1, known) + (if id in known || id in IdsUpTo(stashes, j - 1) then [] else [id])
  }

  lemma {:induction false} OrderAfterFresh(order1: seq<StashId>, stashes: seq<StashItem>, j: nat, known: set<StashId>)
    requires j <= |stashes|
    ensures OrderAfter(order1, stashes, j, known) + FreshIds(stashes[j..], known + IdsUpTo(stashes, j))
      == order1 + FreshIds(stashes, known)
  {
    if j > 0 {
      var id := stashes[j - 1].stashId;
      var seen := known + IdsUpTo(stashes, j - 1);
      var head := if id in seen then [] else [id];
      OrderAfterFresh(order1, stashes, j - 1, known);
      assert stashes[j - 1..][1..] == stashes[j..];
      assert seen + {id} == known + IdsUpTo(stashes, j);
      assert FreshIds(stashes[j - 1..], seen) == head + FreshIds(stashes[j..], seen + {id});
      assert OrderAfter(order1, stashes, j - 1, known) + (head + FreshIds(stashes[j..], seen + {id}))
        == OrderAfter(order1, stashes, j - 1, known) + head + FreshIds(stashes[j..], seen + {id});
    } else {
      assert stashes[0..] == stashes;
      assert known + {} == known;
    }
  }

  lemma DistinctConcat(a: seq<StashId>, b: seq<StashId>)
    requires Distinct(a) && Distinct(b)
    requires forall k :: k in a ==> k !in b
    ensures Distinct(a + b)
  {
    forall i, j | 0 <= i < j < |a + b|
      ensures (a + b)[i] != (a + b)[j]
    {
      if i < |a| && |a| <= j {
        assert (a + b)[i] in a && (a + b)[j] in b;
      }
    }
  }

  /** Vanished ids are disposed of in order, each group once, and never a surviving one. */
  lemma DisposedDistinct(d0: seq<FossilResourceGroup>, v: seq<StashId>, groups: map<StashId, FossilResourceGroup>)
    requires forall k :: k in v ==> k in groups
    requires Distinct(d0) && Distinct(v) && Injective(groups)
    requires forall k :: k in groups ==> groups[k] !in d0
    ensures Distinct(d0 + GroupsOf(v, groups))
    ensures forall k :: k in groups && k !in v ==> groups[k] !in d0 + GroupsOf(v, groups)
  {
    var d := d0 + GroupsOf(v, groups);
    forall i, j | 0 <= i < j < |d|
      ensures d[i] != d[j]
    {
      if i < |d0| && |d0| <= j {
        assert d[j] == groups[v[j - |d0|]];
      } else if |d0| <= i {
        assert d[i] == groups[v[i - |d0|]] && d[j] == groups[v[j - |d0|]];
      }
    }
    forall k | k in groups && k !in v
      ensures groups[k] !in d
    {
      forall n | 0 <= n < |v|
        ensures GroupsOf(v, groups)[n] != groups[k]
      {
        assert v[n] in v;
      }
    }
  }

  lemma {:induction false} FreshIdsKnown(stashes: seq<StashItem>, k1: set<StashId>, k2: set<StashId>)
    requires forall s :: s in stashes ==> (s.stashId in k1 <==> s.stashId in k2)
    ensures FreshIds(stashes, k1) == FreshIds(stashes, k2)
  {
    if stashes != [] {
      var id := stashes[0].stashId;
      assert stashes[0] in stashes;
      forall s | s in stashes[1..] ensures s.stashId in k1 + {id} <==> s.stashId in k2 + {id} {
        assert s in stashes;
      }
      FreshIdsKnown(stashes[1..], k1 + {id}, k2 + {id});
    }
  }

  lemma GroupsOfSnoc(order: seq<StashId>, k: StashId, groups: map<StashId, FossilResourceGroup>)
    requires forall j :: j in order ==> j in groups
    requires k in groups
    ensures forall j :: j in order + [k] ==> j in groups
    ensures GroupsOf(order + [k], groups) == GroupsOf(order, groups) + [groups[k]]
  {
  }

  /**
   * The bookkeeping of a well-formed registry: the order lists every registered id once,
   * each group is registered under one id only, no registered group has been disposed,
   * and no group has been disposed twice.
   */
  ghost predicate Indexed(order: seq<StashId>, groups: map<StashId, FossilResourceGroup>,
                          disposed: seq<FossilResourceGroup>)
  {
    && Distinct(order)
    && (forall k :: k in order <==> k in groups)
    && Injective(groups)
    && (forall k :: k in groups ==> groups[k] !in disposed)
    && Distinct(disposed)
  }

  /** Dropping ids from a registry keeps its groups well formed and distinct. */
  lemma SurvivingOk(groups: map<StashId, FossilResourceGroup>, ids: set<StashId>, seen: seq<StashId>)
    requires GroupsOk(groups) && Injective(groups)
    ensures GroupsOk(Surviving(groups, ids, seen)) && Injective(Surviving(groups, ids, seen))
  {
  }

  /** The first loop of a refresh leaves well-formed bookkeeping behind. */
  lemma PrunedIndexed(entries: seq<StashId>, groups0: map<StashId, FossilResourceGroup>,
                      disposed0: seq<FossilResourceGroup>, ids: set<StashId>)
    requires Indexed(entries, groups0, disposed0)
    ensures forall k :: k in Vanished(entries, ids) ==> k in groups0
    ensures Indexed(Retained(entries, ids), Surviving(groups0, ids, entries),
                    disposed0 + GroupsOf(Vanished(entries, ids), groups0))
  {
    RetainedVanishedMembers(entries, ids);
    RetainedDistinct(entries, ids);
    VanishedDistinct(entries, ids);
    DisposedDistinct(disposed0, Vanished(entries, ids), groups0);
  }

  /**
   * The second loop of a refresh leaves well-formed bookkeeping behind: every listed stash
   * is registered, and the new ids follow the earlier ones in first-seen order.
   */
  lemma RegisteredIndexed(order1: seq<StashId>, groups1: map<StashId, FossilResourceGroup>,
                          disposed: seq<FossilResourceGroup>, stashes: seq<StashItem>,
                          order: seq<StashId>, groups: map<StashId, FossilResourceGroup>)
    requires Indexed(order1, groups1, disposed)
    requires Arranged(order, groups, stashes, |stashes|, groups1, order1)
    requires forall k :: k in groups && k !in groups1 ==> groups[k] !in disposed
    ensures Indexed(order, groups, disposed)
    ensures groups.Keys == groups1.Keys + IdsOf(stashes)
    ensures order == order1 + FreshIds(stashes, groups1.Keys)
  {
    ArrangedDone(order, groups, stashes, groups1, order1);
    FreshIdsMembers(stashes, groups1.Keys);
    DistinctConcat(order1, FreshIds(stashes, groups1.Keys));
  }

  /**
   * After the first loop only listed stashes remain registered, and a listed stash is
   * registered exactly when it was before, so both registries find the same ids new.
   */
  lemma PrunedKnown(entries: seq<StashId>, groups0: map<StashId, FossilResourceGroup>, stashes: seq<StashItem>)
    requires forall k :: k in entries <==> k in groups0
    ensures Surviving(groups0, IdsOf(stashes), entries).Keys <= IdsOf(stashes)
    ensures FreshIds(stashes, Surviving(groups0, IdsOf(stashes), entries).Keys) == FreshIds(stashes, groups0.Keys)
  {
    var groups1 := Surviving(groups0, IdsOf(stashes), entries);
    forall s | s in stashes
      ensures s.stashId in groups1.Keys <==> s.stashId in groups0.Keys
    {
      assert s.stashId in IdsOf(stashes);
    }
    FreshIdsKnown(stashes, groups1.Keys, groups0.Keys);
  }

  /**
   * A whole refresh, on the bookkeeping: starting from `entries`/`groups0`, the first loop
   * leaves `order1`/`groups1` and the disposal log `disposed`, the second loop `order`/`groups`.
   * The registry then holds exactly the listed stashes, survivors first in their old order and
   * then the new ids in first-seen order, and vanished groups are disposed in registration order.
   */
  lemma Reconciled(entries: seq<StashId>, groups0: map<StashId, FossilResourceGroup>,
                   disposed0: seq<FossilResourceGroup>, stashes: seq<StashItem>,
                   order1: seq<StashId>, groups1: map<StashId, FossilResourceGroup>,
                   disposed: seq<FossilResourceGroup>, order: seq<StashId>, groups: map<StashId, FossilResourceGroup>)
    requires Indexed(entries, groups0, disposed0)
    requires order1 == Retained(entries, IdsOf(stashes))
    requires groups1 == Surviving(groups0, IdsOf(stashes), entries)
    requires forall k :: k in Vanished(entries, IdsOf(stashes)) ==> k in groups0
    requires disposed == disposed0 + GroupsOf(Vanished(entries, IdsOf(stashes)), groups0)
    requires Arranged(order, groups, stashes, |stashes|, groups1, order1)
    requires forall k :: k in groups && k !in groups1 ==> groups[k] !in disposed
    ensures Indexed(order, groups, disposed)
    ensures groups.Keys == IdsOf(stashes)
    ensures order == Retained(entries, IdsOf(stashes)) + FreshIds(stashes, groups0.Keys)
  {
    PrunedIndexed(entries, groups0, disposed0, IdsOf(stashes));
    RegisteredIndexed(order1, groups1, disposed, stashes, order, groups);
    PrunedKnown(entries, groups0, stashes);
  }

  /** After a refresh survivors keep their groups, and new groups are labelled from their first stash. */
  lemma ReconciledGroups(entries: seq<StashId>, groups0: map<StashId, FossilResourceGroup>, stashes: seq<StashItem>,
                         order1: seq<StashId>, groups1: map<StashId, FossilResourceGroup>,
                         order: seq<StashId>, groups: map<StashId, FossilResourceGroup>)
    requires groups1 == Surviving(groups0, IdsOf(stashes), entries)
    requires Arranged(order, groups, stashes, |stashes|, groups1, order1)
    ensures forall k :: k in groups0 && k in groups ==> groups[k] == groups0[k]
    ensures forall k :: k in groups && k !in groups0 ==>
      k !in groups1 && groups[k].displayLabel == FormatStashLabel(FirstWithId(stashes, k))
  {
  }

  /**
   * The manager: the groups by stash id, their order of registration (the iteration
   * order of the underlying `Map`), and the ghost log of disposed groups.
   */
  class StashGroupManager {
    var stashGroups: map<StashId, FossilResourceGroup>
    var stashOrder: seq<StashId>
    ghost var disposed: seq<FossilResourceGroup>

    /**
     * Every registered group is a valid group named after its stash, distinct groups
     * belong to distinct stashes, no registered group has been disposed, and no group
     * has been disposed twice.
     */
    ghost predicate Valid()
      reads this, stashGroups.Values
    {
      Indexed(stashOrder, stashGroups, disposed) && GroupsOk(stashGroups)
    }

    constructor ()
      ensures Valid() && stashGroups == map[] && stashOrder == [] && disposed == []
    {
      stashGroups := map[];
      stashOrder := [];
      disposed := [];
    }

    /** `updateStashGroups`: reconcile the registry with the current stash list. */
    method UpdateStashGroups(stashes: seq<StashItem>, stashFilesMap: map<StashId, seq<StashFile>>, root: Path)
      requires Valid()
      modifies this, stashGroups.Values
      ensures Valid()
      ensures stashGroups.Keys == IdsOf(stashes)
      ensures stashOrder == Retained(old(stashOrder), IdsOf(stashes)) + FreshIds(stashes, old(stashGroups).Keys)
      ensures forall k :: k in Vanished(old(stashOrder), IdsOf(stashes)) ==> k in old(stashGroups)
      ensures disposed == old(disposed) + GroupsOf(Vanished(old(stashOrder), IdsOf(stashes)), old(stashGroups))
      ensures forall k :: k in old(stashGroups) && k in stashGroups ==> stashGroups[k] == old(stashGroups)[k]
      ensures forall k :: k in stashGroups && k !in old(stashGroups) ==>
        fresh(stashGroups[k]) && stashGroups[k].displayLabel == FormatStashLabel(FirstWithId(stashes, k))
      ensures Filled(stashGroups, stashFilesMap, root, IdsOf(stashes))
    {
      var currentStashIds := IdsOf(stashes);
      ghost var groups0, entries, disposed0 := stashGroups, stashOrder, disposed;
      RemoveVanished(currentStashIds);
      ghost var groups1, order1 := stashGroups, stashOrder;
      RegisterStashes(stashes, stashFilesMap, root);
      assert forall k :: k in stashGroups && k !in groups1 ==> stashGroups[k] !in disposed;
      Reconciled(entries, groups0, disposed0, stashes, order1, groups1, disposed, stashOrder, stashGroups);
      ReconciledGroups(entries, groups0, stashes, order1, groups1, stashOrder, stashGroups);
    }

    /** The second loop of `updateStashGroups`: create missing groups and refill every listed one. */
    method RegisterStashes(stashes: seq<StashItem>, stashFilesMap: map<StashId, seq<StashFile>>, root: Path)
      requires GroupsOk(stashGroups) && Injective(stashGroups)
      modifies this, stashGroups.Values
      ensures Arranged(stashOrder, stashGroups, stashes, |stashes|, old(stashGroups), old(stashOrder))
      ensures GroupsOk(stashGroups)
      ensures Filled(stashGroups, stashFilesMap, root, IdsOf(stashes))
      ensures forall k :: k in stashGroups ==> k in old(stashGroups) || fresh(stashGroups[k])
      ensures disposed == old(disposed)
    {
      ghost var groups1, order1 := stashGroups, stashOrder;
      assert IdsUpTo(stashes, 0) == {} && groups1.Keys + {} == groups1.Keys;
      var j := 0;
      while j < |stashes|
        invariant Arranged(stashOrder, stashGroups, stashes, j, groups1, order1)
        invariant GroupsOk(stashGroups)
        invariant Filled(stashGroups, stashFilesMap, root, IdsUpTo(stashes, j))
        invariant forall k :: k in stashGroups ==> k in groups1 || fresh(stashGroups[k])
        invariant disposed == old(disposed)
      {
        RegisterOne(stashes, stashFilesMap, root, j, groups1, order1);
        j := j + 1;
      }
      IdsUpToPrefix(stashes, j);
      assert stashes[..j] == stashes;
    }

    /** One pass of the second loop: look the stash's group up or create it, then refill it. */
    method RegisterOne(stashes: seq<StashItem>, stashFilesMap: map<StashId, seq<StashFile>>, root: Path,
                       j: int, ghost groups1: map<StashId, FossilResourceGroup>, ghost order1: seq<StashId>)
      requires 0 <= j < |stashes|
      requires Arranged(stashOrder, stashGroups, stashes, j, groups1, order1)
      requires GroupsOk(stashGroups)
      requires Filled(stashGroups, stashFilesMap, root, IdsUpTo(stashes, j))
      modifies this, stashGroups.Values
      ensures Arranged(stashOrder, stashGroups, stashes, j + 1, groups1, order1)
      ensures GroupsOk(stashGroups)
      ensures Filled(stashGroups, stashFilesMap, root, IdsUpTo(stashes, j + 1))
      ensures forall k :: k in old(stashGroups) ==> k in stashGroups && stashGroups[k] == old(stashGroups)[k]
      ensures forall k :: k in stashGroups ==> k in old(stashGroups) || fresh(stashGroups[k])
      ensures disposed == old(disposed)
    {
      var group := GetOrCreate(stashes, stashFilesMap, root, j, groups1, order1);
      if stashes[j].stashId in old(stashGroups) {
        assert group == old(stashGroups)[stashes[j].stashId] && group in old(stashGroups).Values;
      }
      Refill(stashes, stashFilesMap, root, j, group);
    }

    /** The lookup of one pass of the second loop: find the stash's group, creating and registering it if missing. */
    method GetOrCreate(stashes: seq<StashItem>, ghost stashFilesMap: map<StashId, seq<StashFile>>, ghost root: Path,
                       j: int, ghost groups1: map<StashId, FossilResourceGroup>, ghost order1: seq<StashId>)
      returns (group: FossilResourceGroup)
      requires 0 <= j < |stashes|
      requires Arranged(stashOrder, stashGroups, stashes, j, groups1, order1)
      requires GroupsOk(stashGroups)
      requires Filled(stashGroups, stashFilesMap, root, IdsUpTo(stashes, j))
      modifies this
      ensures Arranged(stashOrder, stashGroups, stashes, j + 1, groups1, order1)
      ensures GroupsOk(stashGroups)
      ensures Filled(stashGroups, stashFilesMap, root, IdsUpTo(stashes, j))
      ensures stashes[j].stashId in stashGroups && group == stashGroups[stashes[j].stashId]
      ensures forall k :: k in old(stashGroups) ==> k in stashGroups && stashGroups[k] == old(stashGroups)[k]
      ensures forall k :: k in stashGroups ==> k in old(stashGroups) || fresh(stashGroups[k])
      ensures disposed == old(disposed)
    {
      var stash := stashes[j];
      if stash.stashId in stashGroups {
        group := stashGroups[stash.stashId];
        ArrangedFound(stashOrder, stashGroups, stashes, j, groups1, order1);
      } else {
        ghost var order, groups := stashOrder, stashGroups;
        group := Create(stash, stashFilesMap, root, IdsUpTo(stashes, j));
        ArrangedCreated(order, groups, stashes, j, groups1, order1, group);
      }
    }

    /** Create the group of a stash that has none and register it last. */
    method Create(stash: StashItem, ghost stashFilesMap: map<StashId, seq<StashFile>>, ghost root: Path,
                  ghost done: set<StashId>) returns (group: FossilResourceGroup)
      requires stash.stashId !in stashGroups
      requires GroupsOk(stashGroups) && Filled(stashGroups, stashFilesMap, root, done)
      modifies this
      ensures fresh(group) && group.displayLabel == FormatStashLabel(stash)
      ensures stashGroups == old(stashGroups)[stash.stashId := group]
      ensures stashOrder == old(stashOrder) + [stash.stashId]
      ensures GroupsOk(stashGroups) && Filled(stashGroups, stashFilesMap, root, done)
      ensures disposed == old(disposed)
    {
      ghost var groups := stashGroups;
      group := new FossilResourceGroup(StashGroupId(stash.stashId), FormatStashLabel(stash));
      stashGroups := stashGroups[stash.stashId := group];
      stashOrder := stashOrder + [stash.stashId];
      Registering(groups, stashFilesMap, root, done, stash.stashId, group);
    }

    /** The update of one pass of the second loop: replace the group's resources by the stash's files. */
    method Refill(stashes: seq<StashItem>, stashFilesMap: map<StashId, seq<StashFile>>, root: Path, j: int,
                  group: FossilResourceGroup)
      requires 0 <= j < |stashes|
      requires GroupsOk(stashGroups) && Injective(stashGroups)
      requires Filled(stashGroups, stashFilesMap, root, IdsUpTo(stashes, j))
      requires stashes[j].stashId in stashGroups && group == stashGroups[stashes[j].stashId]
      modifies group
      ensures GroupsOk(stashGroups)
      ensures Filled(stashGroups, stashFilesMap, root, IdsUpTo(stashes, j + 1))
    {
      var resources := StashResources(group.id, root, FilesFor(stashFilesMap, stashes[j].stashId));
      group.UpdateResources(resources);
    }

    /** The first loop of `updateStashGroups`: dispose and unregister the groups of vanished stashes. */
    method RemoveVanished(currentStashIds: set<StashId>)
      requires forall k :: k in stashOrder ==> k in stashGroups
      requires GroupsOk(stashGroups) && Injective(stashGroups)
      modifies this
      ensures GroupsOk(stashGroups) && Injective(stashGroups)
      ensures stashOrder == Retained(old(stashOrder), currentStashIds)
      ensures stashGroups == Surviving(old(stashGroups), currentStashIds, old(stashOrder))
      ensures forall k :: k in Vanished(old(stashOrder), currentStashIds) ==> k in old(stashGroups)
      ensures disposed == old(disposed) + GroupsOf(Vanished(old(stashOrder), currentStashIds), old(stashGroups))
    {
      // `entries()` yields the pairs of the map as it was when the loop started.
      var entries, groups0 := stashOrder, stashGroups;
      ghost var disposed0 := disposed;
      assert entries[..0] == [];
      var i := 0;
      while i < |entries|
        invariant Pruned(entries, groups0, currentStashIds, disposed0, i)
      {
        PruneOne(entries, groups0, currentStashIds, disposed0, i);
        i := i + 1;
      }
      assert entries[..i] == entries;
      SurvivingOk(groups0, currentStashIds, entries);
    }

    /**
     * What the first loop of `updateStashGroups` has established after checking the first
     * `i` of the registered ids `entries` (the registry `groups0` when the loop started).
     */
    ghost predicate Pruned(entries: seq<StashId>, groups0: map<StashId, FossilResourceGroup>, ids: set<StashId>,
                           disposed0: seq<FossilResourceGroup>, i: int)
      reads this
    {
      && 0 <= i <= |entries|
      && (forall k :: k in entries ==> k in groups0)
      && stashOrder == Retained(entries[..i], ids) + entries[i..]
      && stashGroups == Surviving(groups0, ids, entries[..i])
      && (forall k :: k in Vanished(entries[..i], ids) ==> k in groups0)
      && disposed == disposed0 + GroupsOf(Vanished(entries[..i], ids), groups0)
    }

    /** One pass of the first loop: drop the `i`-th registered id if its stash is gone. */
    method PruneOne(entries: seq<StashId>, groups0: map<StashId, FossilResourceGroup>, ids: set<StashId>,
                    ghost disposed0: seq<FossilResourceGroup>, i: int)
      requires 0 <= i < |entries|
      requires Pruned(entries, groups0, ids, disposed0, i)
      modifies this
      ensures forall k :: k in entries ==> k in groups0
      ensures stashOrder == Retained(entries[..i + 1], ids) + entries[i + 1..]
      ensures stashGroups == Surviving(groups0, ids, entries[..i + 1])
      ensures forall k :: k in Vanished(entries[..i + 1], ids) ==> k in groups0
      ensures disposed == disposed0 + GroupsOf(Vanished(entries[..i + 1], ids), groups0)
    {
      var stashId := entries[i];
      RemovalStep(entries, i, ids);
      SurvivingStep(groups0, ids, entries, i);
      if stashId !in ids {
        var pos := |Retained(entries[..i], ids)|;
        GroupsOfSnoc(Vanished(entries[..i], ids), stashId, groups0);
        var group := groups0[stashId];
        disposed := disposed + [group];
        stashGroups := stashGroups - {stashId};
        stashOrder := stashOrder[..pos] + stashOrder[pos + 1..];
      }
    }

    /** `dispose`: dispose every group, in registration order, and empty the registry. */
    method Dispose()
      requires Valid()
      modifies this
      ensures Valid()
      ensures stashGroups == map[] && stashOrder == []
      ensures disposed == old(disposed) + GroupsOf(old(stashOrder), old(stashGroups))
    {
      var order := stashOrder;
      var i := 0;
      while i < |order|
        invariant 0 <= i <= |order|
        invariant stashGroups == old(stashGroups) && stashOrder == order
        invariant disposed == old(disposed) + GroupsOf(order[..i], stashGroups)
      {
        assert order[..i + 1] == order[..i] + [order[i]];
        disposed := disposed + [stashGroups[order[i]]];
        i := i + 1;
      }
      assert order[..i] == order;
      DisposedDistinct(old(disposed), order, stashGroups);
      stashGroups := map[];
      stashOrder := [];
    }

    /** `getGroups`: every registered group once, in registration order. */
    function GetGroups(): (gs: seq<FossilResourceGroup>)
      reads this, stashGroups.Values
      requires Valid()
      ensures |gs| == |stashOrder|
      ensures forall k :: k in stashGroups ==> stashGroups[k] in gs
      ensures forall i :: 0 <= i < |gs| ==> gs[i] in stashGroups.Values
      ensures Distinct(gs)
      ensures forall i :: 0 <= i < |gs| ==> stashOrder[i] in stashGroups && gs[i] == stashGroups[stashOrder[i]]
    {
      var gs := GroupsOf(stashOrder, stashGroups);
      assert forall i :: 0 <= i < |gs| ==> stashOrder[i] in stashGroups && gs[i] == stashGroups[stashOrder[i]];
      gs
    }
  }

  /**
   * Stashes {1, 2} registered, then a refresh listing {2, 3}: group 1 is disposed,
   * group 2 is kept, group 3 is registered anew.
   */
  lemma ReconcileExample(one: StashItem, two: StashItem, three: StashItem)
    requires one.stashId == 1 && two.stashId == 2 && three.stashId == 3
    ensures Vanished([1, 2], IdsOf([two, three])) == [1]
    ensures Retained([1, 2], IdsOf([two, three])) == [2]
    ensures FreshIds([two, three], {1, 2}) == [3]
  {
    assert two in [two, three] && three in [two, three];
    assert IdsOf([two, three]) == {2, 3};
    assert [1, 2][..1] == [1];
    assert [1][..0] == [];
    var ids := IdsOf([two, three]);
    assert 1 !in ids && 2 in ids;
    assert Vanished([1], ids) == [1] && Retained([1], ids) == [];
    assert [two, three][1..] == [three];
    assert [three][1..] == [];
    assert FreshIds([three], {1, 2} + {2}) == [3] + FreshIds([], {1, 2} + {2} + {3});
  }
}

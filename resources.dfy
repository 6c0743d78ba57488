/**
 * The data model shared by the resource groups and the commands: file statuses as the
 * version-control tool reports them, the resources built from them, and the
 * specification of a group's URI index (an insertion-ordered map, as a JavaScript
 * `Map` is) as functions over the group's list of resources.
 */
module Resources {
  import opened Wrappers

  type Path = seq<char>
  type UriKey = seq<char>
  type GroupId = seq<char>

  /** The per-file status of the tool, with the extension's own names for it. */
  datatype Status =
    | MODIFIED | ADDED | DELETED | MISSING | RENAMED
    | IGNORED | UNTRACKED | UNMODIFIED | CONFLICT | EXTRA

  /** An editor URI: only its scheme and its path matter to this model. */
  datatype Uri = Uri(scheme: seq<char>, path: Path) {
    /** The string a group indexes the URI by (`uri.toString()`). */
    function ToString(): UriKey {
      scheme + "://" + path
    }
  }

  /** `Uri.file(p)`. */
  function FileUri(p: Path): Uri {
    Uri("file", p)
  }

  /** `path.join(root, relative)`, without normalisation of `.` and `..` segments. */
  function Join(root: Path, relative: Path): Path {
    root + "/" + relative
  }

  /** Distinct relative paths under one root give distinct index keys. */
  lemma FileKeyInjective(root: Path, a: Path, b: Path)
    ensures FileUri(Join(root, a)).ToString() == FileUri(Join(root, b)).ToString() ==> a == b
  {
    var n := |"file://" + root + "/"|;
    if FileUri(Join(root, a)).ToString() == FileUri(Join(root, b)).ToString() {
      assert a == FileUri(Join(root, a)).ToString()[n..];
      assert b == FileUri(Join(root, b)).ToString()[n..];
    }
  }

  /**
   * A file entry shown in a group: the id of the group it belongs to, its URI, its
   * status, the tool's class string and the URI it was renamed from, if any.
   */
  datatype Resource = Resource(group: GroupId, uri: Uri, status: Status, klass: seq<char>,
                               rename: Option<Uri>)

  /** One record of the tool's status report. */
  datatype FileStatus = FileStatus(path: Path, status: Status, klass: seq<char>, rename: Option<Path>)

  function KeyOf(r: Resource): UriKey {
    r.uri.ToString()
  }

  /** The index keys of a list of resources. */
  ghost function Keys(rs: seq<Resource>): set<UriKey> {
    set r | r in rs :: KeyOf(r)
  }

  ghost predicate DistinctKeys(rs: seq<Resource>) {
    forall i, j :: 0 <= i < j < |rs| ==> KeyOf(rs[i]) != KeyOf(rs[j])
  }

  ghost predicate Distinct<T>(s: seq<T>) {
    forall i, j :: 0 <= i < j < |s| ==> s[i] != s[j]
  }

  /** The index that `set` calls in list order build: a later resource replaces an earlier one. */
  function IndexOf(rs: seq<Resource>): map<UriKey, Resource> {
    if rs == [] then map[]
    else IndexOf(rs[..|rs| - 1])[KeyOf(rs[|rs| - 1]) := rs[|rs| - 1]]
  }

  /** The index's key order: a key keeps the position of its first insertion. */
  function KeyOrder(rs: seq<Resource>): seq<UriKey> {
    if rs == [] then []
    else
      var order := KeyOrder(rs[..|rs| - 1]);
      var k := KeyOf(rs[|rs| - 1]);
      if k in order then order else order + [k]
  }

  /** The map's values in the given key order (`[...map.values()]`). */
  function ValuesIn(order: seq<UriKey>, m: map<UriKey, Resource>): seq<Resource>
    requires forall k :: k in order ==> k in m
  {
    if order == [] then [] else [m[order[0]]] + ValuesIn(order[1..], m)
  }

  /** Removes every key in `ks` from an ordered key list (`Map.delete` on insertion order). */
  function FilterOutKeys(order: seq<UriKey>, ks: set<UriKey>): seq<UriKey> {
    if order == [] then []
    else if order[0] in ks then FilterOutKeys(order[1..], ks)
    else [order[0]] + FilterOutKeys(order[1..], ks)
  }

  /** The resources whose key is not in `ks`, in their order. */
  function Without(rs: seq<Resource>, ks: set<UriKey>): seq<Resource> {
    if rs == [] then []
    else if KeyOf(rs[0]) in ks then Without(rs[1..], ks)
    else [rs[0]] + Without(rs[1..], ks)
  }

  /** The same resources, each now pointing at group `g`. */
  function Regrouped(rs: seq<Resource>, g: GroupId): seq<Resource> {
    seq(|rs|, i requires 0 <= i < |rs| => rs[i].(group := g))
  }

  // ---------------------------------------------------------------------------
  // Properties of the index

  /** The index holds exactly the keys of the list. */
  lemma {:induction false} IndexOfKeys(rs: seq<Resource>)
    ensures IndexOf(rs).Keys == Keys(rs)
  {
    if rs != [] {
      var p := rs[..|rs| - 1];
      IndexOfKeys(p);
      assert rs == p + [rs[|rs| - 1]];
      assert Keys(rs) == Keys(p) + {KeyOf(rs[|rs| - 1])};
    }
  }

  /** Every index entry is a resource of the list, filed under its own key. */
  lemma {:induction false} IndexOfEntries(rs: seq<Resource>)
    ensures forall k :: k in IndexOf(rs) ==> KeyOf(IndexOf(rs)[k]) == k && IndexOf(rs)[k] in rs
  {
    if rs != [] {
      var p := rs[..|rs| - 1];
      IndexOfEntries(p);
      forall k | k in IndexOf(rs)
        ensures KeyOf(IndexOf(rs)[k]) == k && IndexOf(rs)[k] in rs
      {
        if k != KeyOf(rs[|rs| - 1]) {
          assert IndexOf(rs)[k] == IndexOf(p)[k];
          assert IndexOf(p)[k] in p;
        }
      }
    }
  }

  /** The entry for a key is the last resource of the list with that key. */
  lemma {:induction false} IndexOfLast(rs: seq<Resource>, i: int)
    requires 0 <= i < |rs|
    requires forall j :: i < j < |rs| ==> KeyOf(rs[j]) != KeyOf(rs[i])
    ensures KeyOf(rs[i]) in IndexOf(rs) && IndexOf(rs)[KeyOf(rs[i])] == rs[i]
  {
    if i < |rs| - 1 {
      var p := rs[..|rs| - 1];
      IndexOfLast(p, i);
    }
  }

  /** The key order lists each key of the list exactly once. */
  lemma {:induction false} KeyOrderKeys(rs: seq<Resource>)
    ensures Distinct(KeyOrder(rs))
    ensures forall k :: k in KeyOrder(rs) <==> k in IndexOf(rs)
  {
    if rs != [] {
      var p := rs[..|rs| - 1];
      KeyOrderKeys(p);
    }
  }

  /** With distinct keys, the key order is the list's own order of keys. */
  lemma {:induction false} KeyOrderOfDistinct(rs: seq<Resource>)
    requires DistinctKeys(rs)
    ensures KeyOrder(rs) == seq(|rs|, i requires 0 <= i < |rs| => KeyOf(rs[i]))
  {
    if rs != [] {
      var p := rs[..|rs| - 1];
      var k := KeyOf(rs[|rs| - 1]);
      assert DistinctKeys(p) by {
        forall i, j | 0 <= i < j < |p|
          ensures KeyOf(p[i]) != KeyOf(p[j])
        {
          assert p[i] == rs[i] && p[j] == rs[j];
        }
      }
      KeyOrderOfDistinct(p);
      KeyOrderKeys(p);
      IndexOfKeys(p);
      assert k !in Keys(p) by {
        forall r | r in p
          ensures KeyOf(r) != k
        {
          var j :| 0 <= j < |p| && p[j] == r;
          assert rs[j] == r;
        }
      }
      assert KeyOrder(rs) == KeyOrder(p) + [k];
    }
  }

  lemma {:induction false} ValuesInLength(order: seq<UriKey>, m: map<UriKey, Resource>)
    requires forall k :: k in order ==> k in m
    ensures |ValuesIn(order, m)| == |order|
    ensures forall i :: 0 <= i < |order| ==> ValuesIn(order, m)[i] == m[order[i]]
  {
    if order != [] {
      ValuesInLength(order[1..], m);
    }
  }

  /** The index's values in insertion order: what `[...this._uriToResource.values()]` yields. */
  function Members(rs: seq<Resource>): seq<Resource> {
    KeyOrderKeys(rs);
    ValuesIn(KeyOrder(rs), IndexOf(rs))
  }

  /** A list without repeated keys is its own index's value list. */
  lemma MembersOfDistinct(rs: seq<Resource>)
    requires DistinctKeys(rs)
    ensures Members(rs) == rs
  {
    KeyOrderKeys(rs);
    KeyOrderOfDistinct(rs);
    ValuesInLength(KeyOrder(rs), IndexOf(rs));
    forall i | 0 <= i < |rs|
      ensures Members(rs)[i] == rs[i]
    {
      IndexOfLast(rs, i);
    }
  }

  /** The value list never repeats a key and covers exactly the keys of the list. */
  lemma MembersKeys(rs: seq<Resource>)
    ensures DistinctKeys(Members(rs))
    ensures Keys(Members(rs)) == Keys(rs)
    ensures forall r :: r in Members(rs) ==> r in rs
  {
    var order, m := KeyOrder(rs), IndexOf(rs);
    KeyOrderKeys(rs);
    IndexOfKeys(rs);
    IndexOfEntries(rs);
    ValuesInLength(order, m);
    var ms := Members(rs);
    forall i, j | 0 <= i < j < |ms|
      ensures KeyOf(ms[i]) != KeyOf(ms[j])
    {
      assert KeyOf(ms[i]) == order[i] && KeyOf(ms[j]) == order[j];
    }
    forall k | k in Keys(rs)
      ensures k in Keys(ms)
    {
      var i :| 0 <= i < |order| && order[i] == k;
      assert ms[i] in ms;
    }
  }

  // ---------------------------------------------------------------------------
  // Filtering keys and values

  lemma {:induction false} FilterOutKeysMembers(order: seq<UriKey>, ks: set<UriKey>)
    ensures forall k :: k in FilterOutKeys(order, ks) <==> k in order && k !in ks
  {
    if order != [] {
      FilterOutKeysMembers(order[1..], ks);
    }
  }

  lemma {:induction false} FilterOutKeysNone(order: seq<UriKey>)
    ensures FilterOutKeys(order, {}) == order
  {
    if order != [] {
      FilterOutKeysNone(order[1..]);
    }
  }

  lemma KeysSnoc(rs: seq<Resource>, r: Resource)
    ensures Keys(rs + [r]) == Keys(rs) + {KeyOf(r)}
  {
    assert forall x :: x in rs + [r] <==> x in rs || x == r;
  }

  /** Deleting one more key from an already filtered order. */
  lemma {:induction false} FilterOutKeysTwice(order: seq<UriKey>, ks: set<UriKey>, k: UriKey)
    ensures FilterOutKeys(FilterOutKeys(order, ks), {k}) == FilterOutKeys(order, ks + {k})
  {
    if order != [] {
      FilterOutKeysTwice(order[1..], ks, k);
    }
  }

  /** Reading the values after deleting keys is filtering the values read before. */
  lemma {:induction false} ValuesInFilterOut(order: seq<UriKey>, m: map<UriKey, Resource>, ks: set<UriKey>)
    requires forall k :: k in order ==> k in m
    requires forall k :: k in m ==> KeyOf(m[k]) == k
    ensures forall k :: k in FilterOutKeys(order, ks) ==> k in m - ks
    ensures ValuesIn(FilterOutKeys(order, ks), m - ks) == Without(ValuesIn(order, m), ks)
  {
    FilterOutKeysMembers(order, ks);
    if order != [] {
      ValuesInFilterOut(order[1..], m, ks);
      FilterOutKeysMembers(order[1..], ks);
      assert ValuesIn(order, m)[1..] == ValuesIn(order[1..], m);
    }
  }

  /** `Without` keeps exactly the resources whose key is not excluded. */
  lemma {:induction false} WithoutMembers(rs: seq<Resource>, ks: set<UriKey>)
    ensures forall r :: r in Without(rs, ks) <==> r in rs && KeyOf(r) !in ks
  {
    if rs != [] {
      WithoutMembers(rs[1..], ks);
      assert rs == [rs[0]] + rs[1..];
    }
  }

  /** `Without` keeps a list free of repeated keys. */
  lemma {:induction false} WithoutDistinct(rs: seq<Resource>, ks: set<UriKey>)
    requires DistinctKeys(rs)
    ensures DistinctKeys(Without(rs, ks))
  {
    if rs != [] {
      WithoutDistinct(rs[1..], ks);
      WithoutMembers(rs[1..], ks);
      var w := Without(rs[1..], ks);
      if KeyOf(rs[0]) !in ks {
        forall j | 0 < j < |[rs[0]] + w|
          ensures KeyOf(([rs[0]] + w)[0]) != KeyOf(([rs[0]] + w)[j])
        {
          assert w[j - 1] in rs[1..];
        }
      }
    }
  }

  lemma RegroupedKeys(rs: seq<Resource>, g: GroupId)
    ensures Keys(Regrouped(rs, g)) == Keys(rs)
    ensures DistinctKeys(rs) ==> DistinctKeys(Regrouped(rs, g))
  {
    var q := Regrouped(rs, g);
    forall k | k in Keys(rs) ensures k in Keys(q) {
      var i :| 0 <= i < |rs| && KeyOf(rs[i]) == k;
      assert KeyOf(q[i]) == k && q[i] in q;
    }
    forall k | k in Keys(q) ensures k in Keys(rs) {
      var i :| 0 <= i < |q| && KeyOf(q[i]) == k;
      assert KeyOf(rs[i]) == k && rs[i] in rs;
    }
  }

  // ---------------------------------------------------------------------------
  // Looking a URI up

  /** Among the resources with a key, the index keeps the last one. */
  lemma {:induction false} LastWithKey(rs: seq<Resource>, k: UriKey)
    ensures k in IndexOf(rs) ==> exists i ::
      && 0 <= i < |rs| && rs[i] == IndexOf(rs)[k] && KeyOf(rs[i]) == k
      && forall j :: i < j < |rs| ==> KeyOf(rs[j]) != k
  {
    if rs != [] && k in IndexOf(rs) {
      var n := |rs| - 1;
      if KeyOf(rs[n]) != k {
        var p := rs[..n];
        LastWithKey(p, k);
        var i :| 0 <= i < |p| && p[i] == IndexOf(p)[k] && KeyOf(p[i]) == k
          && forall j :: i < j < |p| ==> KeyOf(p[j]) != k;
        assert rs[i] == IndexOf(rs)[k];
      } else {
        assert rs[n] == IndexOf(rs)[k];
      }
    }
  }

  /** What `getResource` answers for a group listing `rs`: the last listed resource with the key, if any. */
  function Lookup(rs: seq<Resource>, key: UriKey): (r: Option<Resource>)
    ensures r.Some? <==> key in Keys(rs)
    ensures r.Some? ==> r.value in rs && KeyOf(r.value) == key
    ensures r.Some? ==> exists i ::
      && 0 <= i < |rs| && rs[i] == r.value
      && forall j :: i < j < |rs| ==> KeyOf(rs[j]) != key
  {
    IndexOfKeys(rs);
    IndexOfEntries(rs);
    LastWithKey(rs, key);
    if key in IndexOf(rs) then Some(IndexOf(rs)[key]) else None
  }

  // ---------------------------------------------------------------------------
  // Relative order

  /** `a` occurs in `ys` before some occurrence of `b`. */
  ghost predicate Precedes<T>(a: T, b: T, ys: seq<T>) {
    exists i', j' :: 0 <= i' < j' < |ys| && ys[i'] == a && ys[j'] == b
  }

  /** Any two elements of `xs` occur in `ys` in the same relative order. */
  ghost predicate OrderedIn<T>(xs: seq<T>, ys: seq<T>) {
    forall i, j :: 0 <= i < j < |xs| ==> Precedes(xs[i], xs[j], ys)
  }

  /** Putting an element in front of `ys` keeps `xs` in order, and keeps it in order with the element in front too. */
  lemma OrderedInCons<T>(y: T, ys: seq<T>, xs: seq<T>)
    requires OrderedIn(xs, ys)
    requires forall x :: x in xs ==> x in ys
    ensures OrderedIn(xs, [y] + ys)
    ensures OrderedIn([y] + xs, [y] + ys)
  {
    var zs, ws := [y] + ys, [y] + xs;
    forall i, j | 0 <= i < j < |xs|
      ensures Precedes(xs[i], xs[j], zs)
    {
      assert Precedes(xs[i], xs[j], ys);
      var i', j' :| 0 <= i' < j' < |ys| && ys[i'] == xs[i] && ys[j'] == xs[j];
      assert zs[i' + 1] == xs[i] && zs[j' + 1] == xs[j];
    }
    forall i, j | 0 <= i < j < |ws|
      ensures Precedes(ws[i], ws[j], zs)
    {
      if i == 0 {
        assert ws[j] == xs[j - 1] && xs[j - 1] in xs;
        assert xs[j - 1] in ys;
        var k :| 0 <= k < |ys| && ys[k] == xs[j - 1];
        assert zs[0] == ws[0] && zs[k + 1] == ws[j];
      } else {
        assert Precedes(xs[i - 1], xs[j - 1], ys);
        var i', j' :| 0 <= i' < j' < |ys| && ys[i'] == xs[i - 1] && ys[j'] == xs[j - 1];
        assert zs[i' + 1] == ws[i] && zs[j' + 1] == ws[j];
      }
    }
  }
}

/**
 * `FossilResourceGroup`: an ordered list of resources shown under one heading of the
 * source-control view, together with an index from URI strings to resources. Every
 * update ends by rebuilding the index from the new list, so `Valid()` ties the index
 * (its entries and its insertion order) to the list at all times.
 */
module ResourceGroups {
  import opened Wrappers
  import opened Resources

  /** Membership after `intersect(rs)`: `rs` moved into group `g`, then the prior members not replaced. */
  ghost function Intersected(prior: seq<Resource>, rs: seq<Resource>, g: GroupId): seq<Resource> {
    Regrouped(rs, g) + Without(Members(prior), Keys(rs))
  }

  /** Membership after `except(xs)`: the prior members whose URI is not among `xs`. */
  ghost function Excepted(prior: seq<Resource>, xs: seq<Resource>): seq<Resource> {
    Without(Members(prior), Keys(xs))
  }

  class FossilResourceGroup {
    const id: GroupId
    const displayLabel: seq<char>
    /** What the view shows, in order. */
    var resourceStates: seq<Resource>
    /** `_uriToResource`: its keys in insertion order, and its entries. */
    var uriOrder: seq<UriKey>
    var uriToResource: map<UriKey, Resource>

    ghost predicate Valid()
      reads this
    {
      uriToResource == IndexOf(resourceStates) && uriOrder == KeyOrder(resourceStates)
    }

    constructor (id: GroupId, displayLabel: seq<char>)
      ensures Valid() && this.id == id && this.displayLabel == displayLabel
      ensures resourceStates == []
    {
      this.id := id;
      this.displayLabel := displayLabel;
      resourceStates := [];
      uriOrder := [];
      uriToResource := map[];
    }

    /** `is(id)`. */
    predicate Is(gid: GroupId)
      reads this
    {
      id == gid
    }

    /** Looks the URI up in the index: the last listed resource with that URI, if any. */
    function GetResource(uri: Uri): (r: Option<Resource>)
      reads this
      requires Valid()
      ensures r.Some? <==> exists i :: 0 <= i < |resourceStates| && KeyOf(resourceStates[i]) == uri.ToString()
      ensures r.Some? ==> exists i ::
        && 0 <= i < |resourceStates| && resourceStates[i] == r.value
        && KeyOf(r.value) == uri.ToString()
        && forall j :: i < j < |resourceStates| ==> KeyOf(resourceStates[j]) != uri.ToString()
      ensures r == Lookup(resourceStates, uri.ToString())
    {
      IndexOfKeys(resourceStates);
      IndexOfEntries(resourceStates);
      LastWithKey(resourceStates, uri.ToString());
      if uri.ToString() in uriToResource then Some(uriToResource[uri.ToString()]) else None
    }

    /** Whether the index has the URI, which holds exactly when some listed resource has it. */
    predicate IncludesUri(uri: Uri)
      reads this
      requires Valid()
      ensures IncludesUri(uri) <==> exists r :: r in resourceStates && KeyOf(r) == uri.ToString()
    {
      IndexOfKeys(resourceStates);
      uri.ToString() in uriToResource
    }

    /** Scans the index keys for one that starts with `uriStr`. */
    method IncludesDir(uriStr: seq<char>) returns (b: bool)
      requires Valid()
      ensures b <==> exists k :: k in uriToResource && uriStr <= k
      ensures b <==> exists r :: r in resourceStates && uriStr <= KeyOf(r)
    {
      KeyOrderKeys(resourceStates);
      IndexOfKeys(resourceStates);
      IndexOfEntries(resourceStates);
      var i := 0;
      while i < |uriOrder|
        invariant 0 <= i <= |uriOrder|
        invariant forall j :: 0 <= j < i ==> !(uriStr <= uriOrder[j])
      {
        if uriStr <= uriOrder[i] {
          assert uriOrder[i] in uriToResource;
          assert uriToResource[uriOrder[i]] in resourceStates;
          return true;
        }
        i := i + 1;
      }
      forall r | r in resourceStates
        ensures !(uriStr <= KeyOf(r))
      {
        assert KeyOf(r) in Keys(resourceStates);
        assert KeyOf(r) in uriOrder;
      }
      return false;
    }

    /** Replaces the whole list and rebuilds the index from it. */
    method UpdateResources(resources: seq<Resource>)
      modifies this
      ensures Valid() && resourceStates == resources
    {
      resourceStates := resources;
      uriToResource := map[];
      uriOrder := [];
      var i := 0;
      while i < |resources|
        invariant 0 <= i <= |resources|
        invariant resourceStates == resources
        invariant uriToResource == IndexOf(resources[..i])
        invariant uriOrder == KeyOrder(resources[..i])
      {
        KeyOrderKeys(resources[..i]);
        var k := resources[i].uri.ToString();
        if k !in uriToResource {
          uriOrder := uriOrder + [k];
        }
        uriToResource := uriToResource[k := resources[i]];
        assert resources[..i + 1][..i] == resources[..i];
        i := i + 1;
      }
      assert resources[..i] == resources;
    }

    /**
     * One pass of the deletion loops of `intersect` and `except`: drop the `i`-th
     * resource's URI from the index, which started out as the index of `prior`.
     */
    method Forget(ghost prior: seq<Resource>, rs: seq<Resource>, i: int)
      requires 0 <= i < |rs|
      requires uriToResource == IndexOf(prior) - Keys(rs[..i])
      requires uriOrder == FilterOutKeys(KeyOrder(prior), Keys(rs[..i]))
      modifies this
      ensures uriToResource == IndexOf(prior) - Keys(rs[..i + 1])
      ensures uriOrder == FilterOutKeys(KeyOrder(prior), Keys(rs[..i + 1]))
      ensures resourceStates == old(resourceStates)
    {
      var k := rs[i].uri.ToString();
      KeysSnoc(rs[..i], rs[i]);
      assert rs[..i + 1] == rs[..i] + [rs[i]];
      uriToResource := uriToResource - {k};
      FilterOutKeysTwice(KeyOrder(prior), Keys(rs[..i]), k);
      uriOrder := FilterOutKeys(uriOrder, {k});
    }

    /**
     * Moves `resources` into this group: they replace any member with the same URI and
     * come first, followed by the remaining prior members in index order.
     */
    method Intersect(resources: seq<Resource>)
      requires Valid()
      modifies this
      ensures Valid()
      ensures resourceStates == Intersected(old(resourceStates), resources, id)
    {
      ghost var prior := resourceStates;
      KeyOrderKeys(prior);
      IndexOfEntries(prior);
      var moved: seq<Resource> := [];
      var i := 0;
      FilterOutKeysNone(KeyOrder(prior));
      assert Keys(resources[..0]) == {};
      while i < |resources|
        invariant 0 <= i <= |resources|
        invariant uriToResource == IndexOf(prior) - Keys(resources[..i])
        invariant uriOrder == FilterOutKeys(KeyOrder(prior), Keys(resources[..i]))
        invariant moved == Regrouped(resources[..i], id)
      {
        Forget(prior, resources, i);
        assert resources[..i + 1] == resources[..i] + [resources[i]];
        moved := moved + [resources[i].(group := id)];
        i := i + 1;
      }
      assert resources[..i] == resources;
      ValuesInFilterOut(KeyOrder(prior), IndexOf(prior), Keys(resources));
      var intersection := moved + ValuesIn(uriOrder, uriToResource);
      UpdateResources(intersection);
    }

    /** Moves `resourcesToExclude` out of this group: every member with one of their URIs leaves. */
    method Except(resourcesToExclude: seq<Resource>)
      requires Valid()
      modifies this
      ensures Valid()
      ensures resourceStates == Excepted(old(resourceStates), resourcesToExclude)
    {
      ghost var prior := resourceStates;
      KeyOrderKeys(prior);
      IndexOfEntries(prior);
      var i := 0;
      FilterOutKeysNone(KeyOrder(prior));
      assert Keys(resourcesToExclude[..0]) == {};
      while i < |resourcesToExclude|
        invariant 0 <= i <= |resourcesToExclude|
        invariant uriToResource == IndexOf(prior) - Keys(resourcesToExclude[..i])
        invariant uriOrder == FilterOutKeys(KeyOrder(prior), Keys(resourcesToExclude[..i]))
      {
        Forget(prior, resourcesToExclude, i);
        i := i + 1;
      }
      assert resourcesToExclude[..i] == resourcesToExclude;
      ValuesInFilterOut(KeyOrder(prior), IndexOf(prior), Keys(resourcesToExclude));
      UpdateResources(ValuesIn(uriOrder, uriToResource));
    }
  }

  // ---------------------------------------------------------------------------
  // What `intersect` and `except` do to the membership

  /** `Without` keeps the relative order of the resources it keeps. */
  lemma {:induction false} WithoutOrdered(rs: seq<Resource>, ks: set<UriKey>, i: int, j: int)
    requires 0 <= i < j < |Without(rs, ks)|
    ensures exists i', j' :: 0 <= i' < j' < |rs| && rs[i'] == Without(rs, ks)[i] && rs[j'] == Without(rs, ks)[j]
  {
    var w := Without(rs, ks);
    if KeyOf(rs[0]) in ks {
      WithoutOrdered(rs[1..], ks, i, j);
      var i', j' :| 0 <= i' < j' < |rs[1..]| && rs[1..][i'] == w[i] && rs[1..][j'] == w[j];
      assert rs[i' + 1] == w[i] && rs[j' + 1] == w[j];
    } else if i == 0 {
      WithoutMembers(rs[1..], ks);
      assert w[j] in Without(rs[1..], ks);
      var j' :| 0 <= j' < |rs[1..]| && rs[1..][j'] == w[j];
      assert rs[0] == w[0] && rs[j' + 1] == w[j];
    } else {
      WithoutOrdered(rs[1..], ks, i - 1, j - 1);
      var i', j' :| 0 <= i' < j' < |rs[1..]| && rs[1..][i'] == w[i] && rs[1..][j'] == w[j];
      assert rs[i' + 1] == w[i] && rs[j' + 1] == w[j];
    }
  }

  /**
   * For lists without repeated URIs, `intersect(rs)` yields `rs` (now in group `g`) in
   * order, then the prior members whose URI is not in `rs`, in prior order; the result
   * has no repeated URI and covers the URIs of both.
   */
  lemma IntersectedMembership(prior: seq<Resource>, rs: seq<Resource>, g: GroupId)
    requires DistinctKeys(prior) && DistinctKeys(rs)
    ensures Intersected(prior, rs, g) == Regrouped(rs, g) + Without(prior, Keys(rs))
    ensures forall r :: r in Intersected(prior, rs, g)[|rs|..] <==> r in prior && KeyOf(r) !in Keys(rs)
    ensures forall i :: 0 <= i < |rs| ==> Intersected(prior, rs, g)[i] == rs[i].(group := g)
    ensures DistinctKeys(Intersected(prior, rs, g))
    ensures Keys(Intersected(prior, rs, g)) == Keys(rs) + Keys(prior)
  {
    MembersOfDistinct(prior);
    var front, back := Regrouped(rs, g), Without(prior, Keys(rs));
    var res := front + back;
    assert res[|rs|..] == back;
    WithoutMembers(prior, Keys(rs));
    WithoutDistinct(prior, Keys(rs));
    RegroupedKeys(rs, g);
    forall i, j | 0 <= i < j < |res|
      ensures KeyOf(res[i]) != KeyOf(res[j])
    {
      if j >= |front| {
        assert res[j] in back;
        if i < |front| {
          assert KeyOf(res[i]) in Keys(front);
        } else {
          assert res[i] == back[i - |front|] && res[j] == back[j - |front|];
        }
      }
    }
    assert forall r :: r in res <==> r in front || r in back;
    forall k | k in Keys(prior) && k !in Keys(rs)
      ensures k in Keys(back)
    {
      var r :| r in prior && KeyOf(r) == k;
      assert r in back;
    }
  }

  /** Example: a group holding [B, C] intersected with [A, B'] becomes [A, B', C]. */
  lemma IntersectedExample(a: Resource, b: Resource, b': Resource, c: Resource, g: GroupId)
    requires KeyOf(a) != KeyOf(b) && KeyOf(a) != KeyOf(c) && KeyOf(b) != KeyOf(c)
    requires KeyOf(b') == KeyOf(b)
    ensures Intersected([b, c], [a, b'], g) == [a.(group := g), b'.(group := g), c]
  {
    MembersOfDistinct([b, c]);
    var ks := Keys([a, b']);
    assert ks == {KeyOf(a), KeyOf(b)};
    assert [b, c][1..] == [c] && [c][1..] == [];
    assert Without([c], ks) == [c];
    assert Without([b, c], ks) == [c];
    assert Regrouped([a, b'], g) == [a.(group := g), b'.(group := g)];
  }

  /**
   * For a prior list without repeated URIs, `except(xs)` keeps exactly the members whose
   * URI is not among `xs`, in their order: nothing is added and nothing else is removed.
   */
  lemma ExceptedMembership(prior: seq<Resource>, xs: seq<Resource>)
    requires DistinctKeys(prior)
    ensures Excepted(prior, xs) == Without(prior, Keys(xs))
    ensures forall r :: r in Excepted(prior, xs) <==> r in prior && KeyOf(r) !in Keys(xs)
    ensures forall i, j :: 0 <= i < j < |Excepted(prior, xs)| ==>
      exists i', j' :: 0 <= i' < j' < |prior| && prior[i'] == Excepted(prior, xs)[i] && prior[j'] == Excepted(prior, xs)[j]
    ensures DistinctKeys(Excepted(prior, xs))
  {
    MembersOfDistinct(prior);
    WithoutMembers(prior, Keys(xs));
    WithoutDistinct(prior, Keys(xs));
    forall i, j | 0 <= i < j < |Excepted(prior, xs)|
      ensures exists i', j' :: 0 <= i' < j' < |prior| && prior[i'] == Excepted(prior, xs)[i] && prior[j'] == Excepted(prior, xs)[j]
    {
      WithoutOrdered(prior, Keys(xs), i, j);
    }
  }

  /** Example: [A, B, C] except [B] becomes [A, C]. */
  lemma ExceptedExample(a: Resource, b: Resource, c: Resource)
    requires KeyOf(a) != KeyOf(b) && KeyOf(a) != KeyOf(c) && KeyOf(b) != KeyOf(c)
    ensures Excepted([a, b, c], [b]) == [a, c]
  {
    MembersOfDistinct([a, b, c]);
    var ks := Keys([b]);
    assert ks == {KeyOf(b)};
    assert [a, b, c][1..] == [b, c] && [b, c][1..] == [c] && [c][1..] == [];
    assert Without([c], ks) == [c];
    assert Without([b, c], ks) == [c];
  }

  /**
   * The resources `intersect` moves in answer the group's own `is` test, which the file
   * commands' filters apply to a resource's group; the prior members keep their group.
   */
  lemma MovedResourcesAnswerIs(g: FossilResourceGroup, prior: seq<Resource>, rs: seq<Resource>)
    ensures forall i :: 0 <= i < |rs| ==> g.Is(Intersected(prior, rs, g.id)[i].group)
    ensures forall r :: r in Intersected(prior, rs, g.id)[|rs|..] ==> r in Members(prior)
  {
    var front, back := Regrouped(rs, g.id), Without(Members(prior), Keys(rs));
    assert Intersected(prior, rs, g.id)[|rs|..] == back;
    WithoutMembers(Members(prior), Keys(rs));
  }

  /** Moving resources in and then out again leaves the prior members that they did not replace. */
  lemma IntersectThenExcept(prior: seq<Resource>, rs: seq<Resource>, g: GroupId)
    requires DistinctKeys(prior) && DistinctKeys(rs)
    ensures Excepted(Intersected(prior, rs, g), rs) == Without(prior, Keys(rs))
  {
    IntersectedMembership(prior, rs, g);
    var res := Intersected(prior, rs, g);
    MembersOfDistinct(res);
    RegroupedKeys(rs, g);
    WithoutAppend(Regrouped(rs, g), Without(prior, Keys(rs)), Keys(rs));
    WithoutAll(Regrouped(rs, g), Keys(rs));
    WithoutMembers(prior, Keys(rs));
    WithoutNone(Without(prior, Keys(rs)), Keys(rs));
  }

  lemma {:induction false} WithoutAppend(a: seq<Resource>, b: seq<Resource>, ks: set<UriKey>)
    ensures Without(a + b, ks) == Without(a, ks) + Without(b, ks)
  {
    if a != [] {
      WithoutAppend(a[1..], b, ks);
      assert (a + b)[0] == a[0];
      assert (a + b)[1..] == a[1..] + b;
    } else {
      assert a + b == b;
    }
  }

  lemma {:induction false} WithoutAll(rs: seq<Resource>, ks: set<UriKey>)
    requires Keys(rs) <= ks
    ensures Without(rs, ks) == []
  {
    if rs != [] {
      assert KeyOf(rs[0]) in Keys(rs);
      assert Keys(rs[1..]) <= Keys(rs) by {
        forall r | r in rs[1..] ensures r in rs { }
      }
      WithoutAll(rs[1..], ks);
    }
  }

  lemma {:induction false} WithoutNone(rs: seq<Resource>, ks: set<UriKey>)
    requires forall r :: r in rs ==> KeyOf(r) !in ks
    ensures Without(rs, ks) == rs
  {
    if rs != [] {
      assert rs[0] in rs;
      assert forall r :: r in rs[1..] ==> r in rs;
      WithoutNone(rs[1..], ks);
    }
  }
}

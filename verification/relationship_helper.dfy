/**
 EntityRelationshipHelper.addEntitiesWithoutDuplicates: append to a collection
 the new entities whose id is not already there, counting what was added.
 The collection is a list (`add` always appends); `idOf` is the id extractor,
 with None for an entity whose id is still null. A null `newEntities` behaves
 as the empty sequence.
 */
module RelationshipHelper {
  import opened Wrappers

  /** The non-null ids of `xs`. */
  function IdsOf<T, ID(==)>(xs: seq<T>, idOf: T -> Option<ID>): set<ID>
  {
    set i | 0 <= i < |xs| && idOf(xs[i]).Some? :: idOf(xs[i]).value
  }

  /** Reference rule: the i-th new entity is appended when its id is null, or
      when the id is neither among the existing ids nor carried by an earlier
      new entity. */
  predicate Admitted<T, ID(==)>(existingIds: set<ID>, news: seq<T>, idOf: T -> Option<ID>, i: nat)
    requires i < |news|
  {
    || idOf(news[i]).None?
    || (&& idOf(news[i]).value !in existingIds
        && forall j :: 0 <= j < i ==> idOf(news[j]) != idOf(news[i]))
  }

  /** The admitted entities among the first n new ones, in input order. */
  function AdmittedPrefix<T, ID(==)>(existingIds: set<ID>, news: seq<T>, idOf: T -> Option<ID>, n: nat): seq<T>
    requires n <= |news|
  {
    if n == 0 then []
    else
      AdmittedPrefix(existingIds, news, idOf, n - 1)
      + (if Admitted(existingIds, news, idOf, n - 1) then [news[n - 1]] else [])
  }

  /** The appended entities for a whole call. */
  function Appended<T, ID(==)>(existing: seq<T>, news: seq<T>, idOf: T -> Option<ID>): seq<T>
  {
    AdmittedPrefix(IdsOf(existing, idOf), news, idOf, |news|)
  }

  /** The ids seen after the first i new entities: the existing ones plus every
      non-null id among those i. */
  lemma IdsOfPrefixStep<T, ID>(news: seq<T>, idOf: T -> Option<ID>, i: nat)
    requires i < |news|
    ensures IdsOf(news[..i + 1], idOf)
      == IdsOf(news[..i], idOf) + (if idOf(news[i]).Some? then {idOf(news[i]).value} else {})
  {
    var a := news[..i + 1];
    var b := news[..i];
    assert forall k :: 0 <= k < i ==> a[k] == b[k];
    assert a[i] == news[i];
  }

  method AddEntitiesWithoutDuplicates<T, ID(==)>(existing: seq<T>, news: seq<T>, idOf: T -> Option<ID>)
    returns (updated: seq<T>, added: nat)
    ensures |news| == 0 ==> updated == existing && added == 0
    ensures updated == existing + Appended(existing, news, idOf)
    ensures added == |updated| - |existing|
  {
    if |news| == 0 {
      return existing, 0;
    }
    var existingIds: set<ID> := {};
    var k := 0;
    while k < |existing|
      invariant 0 <= k <= |existing|
      invariant existingIds == IdsOf(existing[..k], idOf)
    {
      IdsOfPrefixStep(existing, idOf, k);
      match idOf(existing[k]) {
        case Some(id) => existingIds := existingIds + {id};
        case None =>
      }
      k := k + 1;
    }
    assert existing[..|existing|] == existing;
    ghost var base := existingIds;
    updated := existing;
    added := 0;
    var i := 0;
    while i < |news|
      invariant 0 <= i <= |news|
      invariant existingIds == base + IdsOf(news[..i], idOf)
      invariant updated == existing + AdmittedPrefix(base, news, idOf, i)
      invariant added == |updated| - |existing|
    {
      IdsOfPrefixStep(news, idOf, i);
      var id := idOf(news[i]);
      assert id.Some? ==> (id.value in IdsOf(news[..i], idOf) <==>
                           exists j :: 0 <= j < i && idOf(news[j]) == id) by {
        if id.Some? {
          if id.value in IdsOf(news[..i], idOf) {
            var j :| 0 <= j < i && idOf(news[..i][j]).Some? && idOf(news[..i][j]).value == id.value;
            assert news[..i][j] == news[j];
          }
          if exists j :: 0 <= j < i && idOf(news[j]) == id {
            var j :| 0 <= j < i && idOf(news[j]) == id;
            assert news[..i][j] == news[j];
          }
        }
      }
      if id.None? || id.value !in existingIds {
        updated := updated + [news[i]];
        if id.Some? {
          existingIds := existingIds + {id.value};
        }
        added := added + 1;
      }
      i := i + 1;
    }
    assert news[..|news|] == news;
  }

  /** The count never exceeds the number of candidates. */
  lemma {:induction false} AdmittedPrefixLength<T, ID>(existingIds: set<ID>, news: seq<T>, idOf: T -> Option<ID>, n: nat)
    requires n <= |news|
    ensures |AdmittedPrefix(existingIds, news, idOf, n)| <= n
  {
    if n > 0 {
      AdmittedPrefixLength(existingIds, news, idOf, n - 1);
    }
  }

  lemma CountBounded<T, ID>(existing: seq<T>, news: seq<T>, idOf: T -> Option<ID>)
    ensures |Appended(existing, news, idOf)| <= |news|
  {
    AdmittedPrefixLength(IdsOf(existing, idOf), news, idOf, |news|);
  }

  /** The elements of `xs` whose id is null, in order. */
  function NullIdOnes<T, ID(==)>(xs: seq<T>, idOf: T -> Option<ID>): seq<T>
  {
    if |xs| == 0 then []
    else NullIdOnes(xs[..|xs| - 1], idOf)
         + (if idOf(xs[|xs| - 1]).None? then [xs[|xs| - 1]] else [])
  }

  lemma {:induction false} NullIdOnesAppend<T, ID>(xs: seq<T>, x: T, idOf: T -> Option<ID>)
    ensures NullIdOnes(xs + [x], idOf) == NullIdOnes(xs, idOf) + (if idOf(x).None? then [x] else [])
  {
    assert (xs + [x])[..|xs + [x]| - 1] == xs;
  }

  /** Every null-id entity is appended, and they keep their input order. */
  lemma {:induction false} NullIdsAlwaysAppended<T, ID>(existingIds: set<ID>, news: seq<T>, idOf: T -> Option<ID>, n: nat)
    requires n <= |news|
    ensures NullIdOnes(AdmittedPrefix(existingIds, news, idOf, n), idOf) == NullIdOnes(news[..n], idOf)
  {
    if n > 0 {
      NullIdsAlwaysAppended(existingIds, news, idOf, n - 1);
      var prev := AdmittedPrefix(existingIds, news, idOf, n - 1);
      assert news[..n] == news[..n - 1] + [news[n - 1]];
      NullIdOnesAppend(news[..n - 1], news[n - 1], idOf);
      if Admitted(existingIds, news, idOf, n - 1) {
        NullIdOnesAppend(prev, news[n - 1], idOf);
      } else {
        assert prev + [] == prev;
      }
    }
  }

  /** No two entities of `xs` share a non-null id. */
  predicate DistinctIds<T, ID(==)>(xs: seq<T>, idOf: T -> Option<ID>) {
    forall i, j :: 0 <= i < j < |xs| && idOf(xs[i]).Some? ==> idOf(xs[i]) != idOf(xs[j])
  }

  lemma {:induction false} AdmittedIdsFresh<T, ID>(existingIds: set<ID>, news: seq<T>, idOf: T -> Option<ID>, n: nat)
    requires n <= |news|
    ensures var a := AdmittedPrefix(existingIds, news, idOf, n);
      && DistinctIds(a, idOf)
      && (forall k :: 0 <= k < |a| && idOf(a[k]).Some? ==> idOf(a[k]).value !in existingIds)
      && IdsOf(a, idOf) <= IdsOf(news[..n], idOf)
  {
    if n > 0 {
      AdmittedIdsFresh(existingIds, news, idOf, n - 1);
      var prev := AdmittedPrefix(existingIds, news, idOf, n - 1);
      IdsOfPrefixStep(news, idOf, n - 1);
      if Admitted(existingIds, news, idOf, n - 1) {
        var a := prev + [news[n - 1]];
        var x := news[n - 1];
        if idOf(x).Some? {
          forall k | 0 <= k < |prev| && idOf(prev[k]).Some?
            ensures idOf(prev[k]) != idOf(x)
          {
            assert idOf(prev[k]).value in IdsOf(prev, idOf);
            assert idOf(prev[k]).value in IdsOf(news[..n - 1], idOf);
            var j :| 0 <= j < n - 1 && idOf(news[..n - 1][j]).Some?
                     && idOf(news[..n - 1][j]).value == idOf(prev[k]).value;
            assert news[..n - 1][j] == news[j];
          }
        }
        assert forall k :: 0 <= k < |prev| ==> a[k] == prev[k];
        assert IdsOf(a, idOf) == IdsOf(prev, idOf) + (if idOf(x).Some? then {idOf(x).value} else {}) by {
          assert a[..|prev|] == prev;
          IdsOfPrefixStep(a, idOf, |prev|);
          assert a[..|prev| + 1] == a;
        }
      } else {
        assert prev + [] == prev;
      }
    }
  }

  /** Distinct existing ids stay distinct after the call. */
  lemma DistinctIdsPreserved<T, ID>(existing: seq<T>, news: seq<T>, idOf: T -> Option<ID>)
    requires DistinctIds(existing, idOf)
    ensures DistinctIds(existing + Appended(existing, news, idOf), idOf)
  {
    var ids := IdsOf(existing, idOf);
    var a := Appended(existing, news, idOf);
    var u := existing + a;
    AdmittedIdsFresh(ids, news, idOf, |news|);
    forall i, j | 0 <= i < j < |u| && idOf(u[i]).Some?
      ensures idOf(u[i]) != idOf(u[j])
    {
      if j >= |existing| && i < |existing| {
        assert idOf(u[i]).value in ids;
        assert u[j] == a[j - |existing|];
      } else if i >= |existing| {
        assert u[i] == a[i - |existing|] && u[j] == a[j - |existing|];
      }
    }
  }

  lemma IdsOfAppend<T, ID>(p: seq<T>, q: seq<T>, idOf: T -> Option<ID>)
    ensures IdsOf(p, idOf) <= IdsOf(p + q, idOf)
  {
    forall v | v in IdsOf(p, idOf) ensures v in IdsOf(p + q, idOf) {
      var k :| 0 <= k < |p| && idOf(p[k]).Some? && idOf(p[k]).value == v;
      assert (p + q)[k] == p[k];
    }
  }

  /** Every non-null id of the new entities is present after the call. */
  lemma {:induction false} NewIdsCovered<T, ID>(existingIds: set<ID>, news: seq<T>, idOf: T -> Option<ID>, n: nat)
    requires n <= |news|
    ensures IdsOf(news[..n], idOf) <= existingIds + IdsOf(AdmittedPrefix(existingIds, news, idOf, n), idOf)
  {
    if n > 0 {
      NewIdsCovered(existingIds, news, idOf, n - 1);
      IdsOfPrefixStep(news, idOf, n - 1);
      var prev := AdmittedPrefix(existingIds, news, idOf, n - 1);
      var x := news[n - 1];
      var tail := if Admitted(existingIds, news, idOf, n - 1) then [x] else [];
      var a := prev + tail;
      IdsOfAppend(prev, tail, idOf);
      if idOf(x).Some? {
        var v := idOf(x).value;
        if Admitted(existingIds, news, idOf, n - 1) {
          assert a[|prev|] == x;
          assert v in IdsOf(a, idOf);
        } else if v !in existingIds {
          var j :| 0 <= j < n - 1 && idOf(news[j]) == idOf(x);
          assert news[..n - 1][j] == news[j];
          assert v in IdsOf(news[..n - 1], idOf);
        }
      }
    }
  }

  /** Calling again with the same entities, all of them carrying ids, adds nothing. */
  lemma SecondCallAddsNothing<T, ID>(existing: seq<T>, news: seq<T>, idOf: T -> Option<ID>)
    requires forall i :: 0 <= i < |news| ==> idOf(news[i]).Some?
    ensures var updated := existing + Appended(existing, news, idOf);
      Appended(updated, news, idOf) == []
  {
    var ids := IdsOf(existing, idOf);
    var a := Appended(existing, news, idOf);
    var updated := existing + a;
    NewIdsCovered(ids, news, idOf, |news|);
    assert news[..|news|] == news;
    IdsOfAppend(existing, a, idOf);
    assert IdsOf(a, idOf) <= IdsOf(updated, idOf) by {
      forall v | v in IdsOf(a, idOf) ensures v in IdsOf(updated, idOf) {
        var k :| 0 <= k < |a| && idOf(a[k]).Some? && idOf(a[k]).value == v;
        assert updated[|existing| + k] == a[k];
      }
    }
    forall i | 0 <= i < |news| ensures idOf(news[i]).value in IdsOf(updated, idOf) {
      assert idOf(news[i]).value in IdsOf(news, idOf);
    }
    NoneAdmitted(IdsOf(updated, idOf), news, idOf, |news|);
  }

  lemma {:induction false} NoneAdmitted<T, ID>(existingIds: set<ID>, news: seq<T>, idOf: T -> Option<ID>, n: nat)
    requires n <= |news|
    requires forall i :: 0 <= i < |news| ==> idOf(news[i]).Some? && idOf(news[i]).value in existingIds
    ensures AdmittedPrefix(existingIds, news, idOf, n) == []
  {
    if n > 0 {
      NoneAdmitted(existingIds, news, idOf, n - 1);
    }
  }
}

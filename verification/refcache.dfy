/**
 The name-keyed reference tables of the ingestion service (places, artists,
 tags) and the cache in front of each. A table is the sequence of row names;
 a row's id is its position. A cache maps a name to the id of its row.

 `Resolve` is `cache.computeIfAbsent(name, findByName-or-save)`;
 `GetOrCreate` is `getOrCreateArtists` / `getOrCreateTags`.
 */
module RefCache {
  import opened Wrappers

  type Table = seq<string>
  type Cache = map<string, nat>

  /** No two rows carry the same name. */
  predicate Unique(t: Table) {
    forall i, j :: 0 <= i < j < |t| ==> t[i] != t[j]
  }

  /** Every cached id is a row of the table carrying the cached name. */
  predicate CacheValid(t: Table, c: Cache) {
    forall n :: n in c ==> c[n] < |t| && t[c[n]] == n
  }

  /** Every row name of the table is cached. */
  predicate Covers(t: Table, c: Cache) {
    forall i :: 0 <= i < |t| ==> t[i] in c
  }

  /** The names of the rows `ids` designates. */
  function NamesOf(t: Table, ids: set<nat>): set<string> {
    set id | id in ids && id < |t| :: t[id]
  }

  /** repository.findByName(name): the first row with that name. */
  function FindByName(t: Table, name: string): (r: Option<nat>)
    ensures r.Some? <==> name in t
    ensures r.Some? ==> r.value < |t| && t[r.value] == name
    ensures r.Some? ==> forall j :: 0 <= j < r.value ==> t[j] != name
  {
    if |t| == 0 then None
    else if t[0] == name then Some(0)
    else
      match FindByName(t[1..], name)
      case None => None
      case Some(k) => Some(k + 1)
  }

  datatype Resolved = Resolved(table: Table, cache: Cache, id: nat)

  /** computeIfAbsent(name, findByName or save): a cached name is answered
      from the cache with no repository access; otherwise the row found by
      name, or a new row appended, is cached under the name. Existing rows
      never change. */
  function Resolve(t: Table, c: Cache, name: string): (r: Resolved)
    ensures name in c ==> r == Resolved(t, c, c[name])
    ensures name !in c ==> r.cache == c[name := r.id]
    ensures name !in c && name in t ==> r.table == t && r.id < |t| && t[r.id] == name
    ensures name !in c && name !in t ==> r.table == t + [name] && r.id == |t|
    ensures t <= r.table
    ensures CacheValid(t, c) ==> CacheValid(r.table, r.cache) && r.id < |r.table| && r.table[r.id] == name
    ensures Unique(t) ==> Unique(r.table)
    ensures Covers(t, c) ==> Covers(r.table, r.cache)
  {
    if name in c then Resolved(t, c, c[name])
    else
      match FindByName(t, name)
      case Some(id) => Resolved(t, c[name := id], id)
      case None => Resolved(t + [name], c[name := |t|], |t|)
  }

  /** A cache stays valid when rows are appended to its table. */
  lemma CacheValidGrows(t: Table, t': Table, c: Cache)
    requires CacheValid(t, c) && t <= t'
    ensures CacheValid(t', c)
  {
    forall n | n in c ensures c[n] < |t'| && t'[c[n]] == n {
      assert t'[c[n]] == t[c[n]];
    }
  }

  /** Resolving a name a second time gives the same row and creates nothing. */
  lemma ResolveRepeat(t: Table, c: Cache, name: string)
    ensures var r := Resolve(t, c, name);
      Resolve(r.table, r.cache, name) == r
  {
  }

  /** When the cache holds every row name, a miss always creates a new row. */
  lemma MissCreatesRow(t: Table, c: Cache, name: string)
    requires Covers(t, c)
    requires name !in c
    ensures Resolve(t, c, name).table == t + [name]
  {
    assert name !in t;
  }

  /** The names listed in `ns`. */
  function Elems(ns: seq<string>): set<string> {
    set n | n in ns
  }

  /** The cached ids of the names of `names` that the cache holds. */
  function Hits(c: Cache, names: set<string>): set<nat> {
    set n | n in names && n in c :: c[n]
  }

  datatype Batch = Batch(table: Table, cache: Cache, ids: set<nat>)

  /** Resolve each name of `ns` in order, collecting the ids. */
  function ResolveAll(t: Table, c: Cache, ns: seq<string>): (r: Batch)
    ensures t <= r.table
    ensures Unique(t) ==> Unique(r.table)
    ensures Covers(t, c) ==> Covers(r.table, r.cache)
    ensures r.cache.Keys == c.Keys + Elems(ns)
    ensures CacheValid(t, c) ==>
      && CacheValid(r.table, r.cache)
      && (forall id :: id in r.ids ==> id < |r.table|)
      && NamesOf(r.table, r.ids) == Elems(ns)
  {
    if |ns| == 0 then Batch(t, c, {})
    else
      var p := ResolveAll(t, c, ns[..|ns| - 1]);
      var last := ns[|ns| - 1];
      var q := Resolve(p.table, p.cache, last);
      ResolveAllStep(t, c, ns, p, q);
      Batch(q.table, q.cache, p.ids + {q.id})
  }

  lemma ResolveAllStep(t: Table, c: Cache, ns: seq<string>, p: Batch, q: Resolved)
    requires |ns| > 0
    requires p.cache.Keys == c.Keys + Elems(ns[..|ns| - 1])
    requires q == Resolve(p.table, p.cache, ns[|ns| - 1])
    requires CacheValid(t, c) ==>
      && CacheValid(p.table, p.cache)
      && (forall id :: id in p.ids ==> id < |p.table|)
      && NamesOf(p.table, p.ids) == Elems(ns[..|ns| - 1])
    ensures q.cache.Keys == c.Keys + Elems(ns)
    ensures CacheValid(t, c) ==>
      && (forall id :: id in p.ids + {q.id} ==> id < |q.table|)
      && NamesOf(q.table, p.ids + {q.id}) == Elems(ns)
  {
    assert ns == ns[..|ns| - 1] + [ns[|ns| - 1]];
    assert Elems(ns) == Elems(ns[..|ns| - 1]) + {ns[|ns| - 1]};
    if CacheValid(t, c) {
      NamesOfExtend(p.table, q.table, p.ids, q.id);
    }
  }

  /** Adding one id of a longer table adds that row's name. */
  lemma NamesOfExtend(t: Table, t': Table, ids: set<nat>, id: nat)
    requires t <= t' && id < |t'|
    requires forall i :: i in ids ==> i < |t|
    ensures forall i :: i in ids + {id} ==> i < |t'|
    ensures NamesOf(t', ids + {id}) == NamesOf(t, ids) + {t'[id]}
  {
    forall i | i in ids ensures t'[i] == t[i] {
    }
    assert NamesOf(t', ids) == NamesOf(t, ids);
  }

  /** The names of `names` that the cache does not hold. */
  function Misses(c: Cache, names: set<string>): set<string> {
    set n | n in names && n !in c
  }

  /** `order` lists exactly the elements of `s`. */
  ghost predicate Enumerates(order: seq<string>, s: set<string>) {
    forall x :: x in order <==> x in s
  }

  /** getOrCreateArtists / getOrCreateTags: cached names answer from the
      cache; when some names miss, they are resolved one by one in the set's
      iteration order (`enumerate`, the HashSet order). The result holds one
      row per requested name and every requested name is cached afterwards. */
  function GetOrCreate(t: Table, c: Cache, names: set<string>, enumerate: set<string> -> seq<string>): (r: Batch)
    ensures t <= r.table
    ensures Unique(t) ==> Unique(r.table)
    ensures Covers(t, c) ==> Covers(r.table, r.cache)
    ensures Misses(c, names) == {} ==> r.table == t && r.cache == c
    ensures CacheValid(t, c) ==> CacheValid(r.table, r.cache)
    ensures Enumerates(enumerate(Misses(c, names)), Misses(c, names)) ==> r.cache.Keys == c.Keys + names
    ensures CacheValid(t, c) && Enumerates(enumerate(Misses(c, names)), Misses(c, names)) ==>
      && CacheValid(r.table, r.cache)
      && (forall id :: id in r.ids ==> id < |r.table|)
      && NamesOf(r.table, r.ids) == names
  {
    var misses := Misses(c, names);
    if misses == {} then
      GetOrCreateAllHit(t, c, names);
      Batch(t, c, Hits(c, names))
    else
      var b := ResolveAll(t, c, enumerate(misses));
      GetOrCreateSomeMiss(t, c, names, enumerate(misses));
      Batch(b.table, b.cache, Hits(c, names) + b.ids)
  }

  lemma GetOrCreateAllHit(t: Table, c: Cache, names: set<string>)
    requires Misses(c, names) == {}
    ensures c.Keys + names == c.Keys
    ensures CacheValid(t, c) ==>
      && (forall id :: id in Hits(c, names) ==> id < |t|)
      && NamesOf(t, Hits(c, names)) == names
  {
    forall n | n in names ensures n in c {
      assert n !in Misses(c, names);
    }
    GetOrCreateHits(t, t, c, names);
  }

  lemma GetOrCreateSomeMiss(t: Table, c: Cache, names: set<string>, order: seq<string>)
    ensures var b := ResolveAll(t, c, order);
      Enumerates(order, Misses(c, names)) ==>
        && b.cache.Keys == c.Keys + names
        && (CacheValid(t, c) ==>
              && (forall id :: id in Hits(c, names) + b.ids ==> id < |b.table|)
              && NamesOf(b.table, Hits(c, names) + b.ids) == names)
  {
    var b := ResolveAll(t, c, order);
    if Enumerates(order, Misses(c, names)) {
      assert Elems(order) == Misses(c, names);
      MissesSplit(c, names);
      if CacheValid(t, c) {
        GetOrCreateHits(t, b.table, c, names);
        NamesOfUnion(b.table, Hits(c, names), b.ids);
      }
    }
  }

  lemma MissesSplit(c: Cache, names: set<string>)
    ensures c.Keys + Misses(c, names) == c.Keys + names
    ensures (set n | n in names && n in c) + Misses(c, names) == names
  {
  }

  lemma NamesOfUnion(t: Table, a: set<nat>, b: set<nat>)
    ensures NamesOf(t, a + b) == NamesOf(t, a) + NamesOf(t, b)
  {
  }

  lemma GetOrCreateHits(t: Table, t': Table, c: Cache, names: set<string>)
    requires t <= t'
    ensures CacheValid(t, c) ==>
      && (forall id :: id in Hits(c, names) ==> id < |t'|)
      && NamesOf(t', Hits(c, names)) == set n | n in names && n in c
  {
    if CacheValid(t, c) {
      CacheValidGrows(t, t', c);
      var hits := Hits(c, names);
      forall x | x in NamesOf(t', hits) ensures x in names && x in c {
        var id :| id in hits && id < |t'| && t'[id] == x;
        var n :| n in names && n in c && c[n] == id;
      }
      forall x | x in names && x in c ensures x in NamesOf(t', hits) {
        assert c[x] in hits;
      }
    }
  }

  /** The name-to-id map `put` row by row from `findAll()`: a later row with
      the same name replaces an earlier one. */
  function IndexMap(t: Table): (m: Cache)
    ensures m.Keys == set n | n in t
    ensures CacheValid(t, m)
  {
    if |t| == 0 then map[]
    else
      var p := IndexMap(t[..|t| - 1]);
      CacheValidGrows(t[..|t| - 1], t, p);
      assert t == t[..|t| - 1] + [t[|t| - 1]];
      p[t[|t| - 1] := |t| - 1]
  }

  /** preloadCaches for one table: every row is put into the cache. */
  function PreloadTable(t: Table, c: Cache): (r: Cache)
    ensures Covers(t, r)
    ensures forall i :: 0 <= i < |t| ==> r[t[i]] < |t| && t[r[t[i]]] == t[i]
    ensures CacheValid(t, c) ==> CacheValid(t, r)
    ensures r.Keys == c.Keys + set n | n in t
  {
    var m := IndexMap(t);
    assert forall i :: 0 <= i < |t| ==> t[i] in m;
    c + m
  }

  /** On a table with unique names, preloading a valid cache changes nothing
      that the cache already knew. */
  lemma PreloadKeepsValidEntries(t: Table, c: Cache)
    requires Unique(t) && CacheValid(t, c)
    ensures forall n :: n in c ==> PreloadTable(t, c)[n] == c[n]
  {
    var m := IndexMap(t);
    forall n | n in c ensures PreloadTable(t, c)[n] == c[n] {
      if n in m {
        assert t[m[n]] == n == t[c[n]];
      }
    }
  }
}

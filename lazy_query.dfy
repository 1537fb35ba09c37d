/** The request-scoped deferred batch loader `LazyQuery` of the GraphQL layer.

    A loader knows three things: every key registered so far (`ids`), the
    registered keys not yet fetched (`noQueriedIds`, the pending keys) and the
    entities fetched so far (`cache`). Registering only records keys; the batch
    function `query` runs when a lookup asks for a pending key, and then once,
    for all pending keys.

    The loader is specified by a value, `LoaderState`, and two functions on it,
    `Registered` and `Flushed`; the class's methods are proved to perform them.
    The state also carries `batches`, the argument of every call of `query` so
    far, in call order: a record of the calls, not something the code keeps. */
module LazyQueries {
  import opened Linq

  newtype int64 = x: int | -0x8000_0000_0000_0000 <= x < 0x8000_0000_0000_0000

  /** Entity keys are 64-bit primary keys. */
  type Key = int64

  datatype LoaderState<E> = LoaderState(
    ids: seq<Key>,
    pending: seq<Key>,
    cache: map<Key, E>,
    batches: seq<seq<Key>>)

  /** The state `initLazyQuery` creates. */
  function Empty<E>(): LoaderState<E>
  {
    LoaderState([], [], map[], [])
  }

  /** All keys ever passed to the batch function. */
  function Fetched<E>(s: LoaderState<E>): seq<Key>
  {
    Flatten(s.batches)
  }

  /** The loader's invariant: both key lists are duplicate-free, every pending
      key is known, every known key is either pending or fetched (not both),
      no key was fetched twice, and the batch function never got an empty list. */
  ghost predicate Inv<E>(s: LoaderState<E>)
  {
    && NoDup(s.ids)
    && NoDup(s.pending)
    && (forall k :: k in s.pending ==> k in s.ids)
    && NoDup(Fetched(s))
    && (forall k :: k in Fetched(s) ==> k in s.ids && k !in s.pending)
    && (forall k :: k in s.ids ==> k in s.pending || k in Fetched(s))
    && (forall i :: 0 <= i < |s.batches| ==> s.batches[i] != [])
  }

  /** The keys of a `Set` call not yet known, once each, in call order. */
  function NewKeys<E>(s: LoaderState<E>, keys: seq<Key>): (r: seq<Key>)
    ensures NoDup(r)
    ensures forall k :: k in r <==> k in keys && k !in s.ids
  {
    Distinct(Except(keys, s.ids))
  }

  /** `Set(keys...)`: the unknown keys become known and pending; the cache
      and the record of fetches are left alone. */
  function Registered<E>(s: LoaderState<E>, keys: seq<Key>): (r: LoaderState<E>)
    ensures forall k :: k in r.ids <==> k in s.ids || k in keys
    ensures forall k :: k in r.pending <==> k in s.pending || (k in keys && k !in s.ids)
    ensures |s.ids| <= |r.ids| && |s.pending| <= |r.pending|
    ensures r.ids[..|s.ids|] == s.ids && r.pending[..|s.pending|] == s.pending
    ensures r.cache == s.cache && r.batches == s.batches
  {
    var added := NewKeys(s, keys);
    assert (s.ids + added)[..|s.ids|] == s.ids;
    assert (s.pending + added)[..|s.pending|] == s.pending;
    s.(ids := s.ids + added, pending := s.pending + added)
  }

  /** A lookup must fetch exactly when one of the requested keys is pending. */
  predicate NeedsFetch<E>(s: LoaderState<E>, keys: seq<Key>)
  {
    exists k :: k in keys && k in s.pending
  }

  /** The state change of `Get(keys...)`: if a requested key is pending, the batch
      function is called once with the whole pending list, its entries are merged
      into the cache and nothing is pending any more; otherwise nothing changes. */
  function Flushed<E>(s: LoaderState<E>, keys: seq<Key>, query: seq<Key> -> map<Key, E>): (r: LoaderState<E>)
    ensures r.ids == s.ids
    ensures NeedsFetch(s, keys) ==> r.batches == s.batches + [s.pending] && r.pending == []
    ensures NeedsFetch(s, keys) ==> var q := query(s.pending);
      && r.cache.Keys == s.cache.Keys + q.Keys
      && (forall k :: k in q ==> r.cache[k] == q[k])
      && (forall k :: k in s.cache && k !in q ==> r.cache[k] == s.cache[k])
    ensures !NeedsFetch(s, keys) ==> r == s
  {
    if NeedsFetch(s, keys) then
      s.(pending := [], cache := s.cache + query(s.pending), batches := s.batches + [s.pending])
    else
      s
  }

  /** The answer of `Get(keys...)` from a cache: for each requested key in order,
      its entity if the cache has one; missing keys are skipped, repeated keys repeat. */
  function Lookup<E>(cache: map<Key, E>, keys: seq<Key>): (r: seq<E>)
    ensures |r| <= |keys|
  {
    if keys == [] then []
    else
      var k := keys[|keys| - 1];
      Lookup(cache, keys[..|keys| - 1]) + (if k in cache then [cache[k]] else [])
  }

  lemma EmptyInv<E>()
    ensures Inv(Empty<E>())
  {
  }

  /** `Set` keeps the invariant. */
  lemma RegisteredInv<E>(s: LoaderState<E>, keys: seq<Key>)
    requires Inv(s)
    ensures Inv(Registered(s, keys))
  {
    var added := NewKeys(s, keys);
    NoDupAppend(s.ids, added);
    NoDupAppend(s.pending, added);
  }

  /** `Get` keeps the invariant; in particular the keys it fetches were never fetched before. */
  lemma FlushedInv<E>(s: LoaderState<E>, keys: seq<Key>, query: seq<Key> -> map<Key, E>)
    requires Inv(s)
    ensures Inv(Flushed(s, keys, query))
  {
    if NeedsFetch(s, keys) {
      var r := Flushed(s, keys, query);
      FlattenSnoc(s.batches, s.pending);
      assert Fetched(r) == Fetched(s) + s.pending;
      NoDupAppend(Fetched(s), s.pending);
    }
  }

  lemma {:induction false} NoDupAppend<T>(a: seq<T>, b: seq<T>)
    requires NoDup(a) && NoDup(b)
    requires forall x :: x in b ==> x !in a
    ensures NoDup(a + b)
  {
    var c := a + b;
    forall i, j | 0 <= i < j < |c| ensures c[i] != c[j] {
      if j < |a| {
        assert c[i] == a[i] && c[j] == a[j];
      } else if i < |a| {
        assert c[i] == a[i] && c[j] == b[j - |a|] && b[j - |a|] in b;
      } else {
        assert c[i] == b[i - |a|] && c[j] == b[j - |a|];
      }
    }
  }

  /** Registering keys twice is registering them once. */
  lemma RegisterIdempotent<E>(s: LoaderState<E>, keys: seq<Key>)
    ensures Registered(Registered(s, keys), keys) == Registered(s, keys)
  {
    var r := Registered(s, keys);
    ExceptAllKnown(keys, r.ids);
    assert r.ids + [] == r.ids && r.pending + [] == r.pending;
  }

  /** Registering only known keys changes nothing, whether they are pending,
      were fetched and found, or were fetched and not found. */
  lemma RegisterKnownIsNoop<E>(s: LoaderState<E>, keys: seq<Key>)
    requires forall k :: k in keys ==> k in s.ids
    ensures Registered(s, keys) == s
  {
    ExceptAllKnown(keys, s.ids);
    assert s.ids + [] == s.ids && s.pending + [] == s.pending;
  }

  /** Absence is remembered: a key that was passed to the batch function, found
      or not, never becomes pending again, whatever is registered afterwards. */
  lemma FetchedNeverPendingAgain<E>(s: LoaderState<E>, k: Key, keys: seq<Key>)
    requires Inv(s)
    requires k in Fetched(s)
    ensures k !in Registered(s, keys).pending
  {
  }

  /** A key that is pending when a lookup asks for it is fetched by that lookup,
      and the lookup returns what the batch function found for it. */
  lemma ResolveFetchesPendingKey<E>(s: LoaderState<E>, keys: seq<Key>, query: seq<Key> -> map<Key, E>, k: Key)
    requires Inv(s)
    requires k in keys && k in s.pending
    ensures var r := Flushed(s, keys, query);
      && k in Fetched(r) && k !in r.pending
      && (k in query(s.pending) ==> Lookup(r.cache, [k]) == [query(s.pending)[k]])
  {
    var r := Flushed(s, keys, query);
    FlattenSnoc(s.batches, s.pending);
    assert Fetched(r) == Fetched(s) + s.pending;
    LookupSingleton(r.cache, k);
  }

  /** A lookup that asks for no pending key (no keys at all, keys already
      fetched, or keys never registered) calls nothing and changes nothing. */
  lemma ResolveWithoutPendingIsNoop<E>(s: LoaderState<E>, keys: seq<Key>, query: seq<Key> -> map<Key, E>)
    requires Inv(s)
    requires forall k :: k in keys ==> k !in s.ids || k in Fetched(s)
    ensures Flushed(s, keys, query) == s
    ensures Flushed(s, [], query) == s
  {
  }

  lemma LookupSingleton<E>(cache: map<Key, E>, k: Key)
    ensures Lookup(cache, [k]) == if k in cache then [cache[k]] else []
  {
    assert [k][..0] == [];
  }

  /** Looking up a concatenation is concatenating the lookups: the answer keeps
      the order of the requested keys. */
  lemma {:induction false} LookupAppend<E>(cache: map<Key, E>, a: seq<Key>, b: seq<Key>)
    ensures Lookup(cache, a + b) == Lookup(cache, a) + Lookup(cache, b)
  {
    if b == [] {
      assert a + b == a;
    } else {
      assert (a + b)[..|a + b| - 1] == a + b[..|b| - 1];
      LookupAppend(cache, a, b[..|b| - 1]);
    }
  }

  /** When every requested key is cached, the answer has one entity per key, in order. */
  lemma {:induction false} LookupAllCached<E>(cache: map<Key, E>, keys: seq<Key>)
    requires forall k :: k in keys ==> k in cache
    ensures |Lookup(cache, keys)| == |keys|
    ensures forall i :: 0 <= i < |keys| ==> Lookup(cache, keys)[i] == cache[keys[i]]
  {
    if keys != [] {
      LookupAllCached(cache, keys[..|keys| - 1]);
    }
  }

  /** Every entity of the answer is the cached entity of some requested key. */
  lemma {:induction false} LookupFromCache<E>(cache: map<Key, E>, keys: seq<Key>, i: nat)
    requires i < |Lookup(cache, keys)|
    ensures exists k :: k in keys && k in cache && cache[k] == Lookup(cache, keys)[i]
  {
    var init := keys[..|keys| - 1];
    var last := keys[|keys| - 1];
    if i < |Lookup(cache, init)| {
      LookupFromCache(cache, init, i);
      var k :| k in init && k in cache && cache[k] == Lookup(cache, init)[i];
      assert k in keys;
    } else {
      assert last in keys;
    }
  }

  /** One operation of a resolver on a loader. */
  datatype Op = Register(keys: seq<Key>) | Resolve(keys: seq<Key>)

  function Step<E>(s: LoaderState<E>, op: Op, query: seq<Key> -> map<Key, E>): LoaderState<E>
  {
    match op
    case Register(keys) => Registered(s, keys)
    case Resolve(keys) => Flushed(s, keys, query)
  }

  /** The loader's state after a sequence of operations. */
  function Run<E>(s: LoaderState<E>, ops: seq<Op>, query: seq<Key> -> map<Key, E>): LoaderState<E>
    decreases |ops|
  {
    if ops == [] then s else Run(Step(s, ops[0], query), ops[1..], query)
  }

  /** Every key registered by some operation. */
  ghost predicate RegisteredBy(ops: seq<Op>, k: Key)
  {
    exists i :: 0 <= i < |ops| && ops[i].Register? && k in ops[i].keys
  }

  lemma {:induction false} RunInv<E>(s: LoaderState<E>, ops: seq<Op>, query: seq<Key> -> map<Key, E>)
    requires Inv(s)
    ensures Inv(Run(s, ops, query))
    ensures forall k :: k in Run(s, ops, query).ids ==> k in s.ids || RegisteredBy(ops, k)
    decreases |ops|
  {
    if ops != [] {
      var t := Step(s, ops[0], query);
      if ops[0].Register? {
        RegisteredInv(s, ops[0].keys);
      } else {
        FlushedInv(s, ops[0].keys, query);
      }
      RunInv(t, ops[1..], query);
      forall k | k in Run(s, ops, query).ids ensures k in s.ids || RegisteredBy(ops, k) {
        if !(k in t.ids) {
          var i :| 0 <= i < |ops[1..]| && ops[1..][i].Register? && k in ops[1..][i].keys;
          assert ops[i + 1] == ops[1..][i];
        } else if k !in s.ids {
          assert ops[0].Register? && k in ops[0].keys;
        }
      }
    }
  }

  /** At-most-once fetch: over the whole life of a loader, whatever its callers
      do, no key is passed to the batch function twice, and only registered keys are. */
  lemma AtMostOnceFetch<E>(ops: seq<Op>, query: seq<Key> -> map<Key, E>)
    ensures NoDup(Fetched(Run(Empty(), ops, query)))
    ensures forall k :: k in Fetched(Run(Empty(), ops, query)) ==> RegisteredBy(ops, k)
  {
    EmptyInv<E>();
    RunInv(Empty(), ops, query);
  }

  /** Register authors 1, 2, 2, 3; look up 1 and 3, where the source knows 1 and 3
      but not 2: one fetch of [1, 2, 3] and the answer [a, c]. A later lookup of 2,
      even after registering 2 again, fetches nothing and answers nothing. */
  lemma BatchScenario<E>(query: seq<Key> -> map<Key, E>, a: E, c: E)
    requires query([1, 2, 3]) == map[1 := a, 3 := c]
    ensures Flushed(Registered(Empty(), [1, 2, 2, 3]), [1, 3], query)
         == LoaderState([1, 2, 3], [], map[1 := a, 3 := c], [[1, 2, 3]])
    ensures Lookup(map[1 := a, 3 := c], [1, 3]) == [a, c]
    ensures var s1 := LoaderState([1, 2, 3], [], map[1 := a, 3 := c], [[1, 2, 3]]);
      Flushed(Registered(s1, [2]), [2], query) == s1
    ensures Lookup(map[1 := a, 3 := c], [2]) == []
  {
    ScenarioRegister<E>();
    ScenarioFlush(query, a, c);
    ScenarioLookup(a, c);
    ScenarioRepeat(query, a, c);
  }

  lemma ScenarioLookup<E>(a: E, c: E)
    ensures Lookup(map[1 := a, 3 := c], [1, 3]) == [a, c]
    ensures Lookup(map[1 := a, 3 := c], [2]) == []
  {
    var m: map<Key, E> := map[1 := a, 3 := c];
    LookupSingleton(m, 1);
    LookupSingleton(m, 2);
    assert [1, 3][..1] == [1];
  }

  lemma ScenarioRepeat<E>(query: seq<Key> -> map<Key, E>, a: E, c: E)
    ensures var s1 := LoaderState([1, 2, 3], [], map[1 := a, 3 := c], [[1, 2, 3]]);
      Flushed(Registered(s1, [2]), [2], query) == s1
  {
    var s1 := LoaderState([1, 2, 3], [], map[1 := a, 3 := c], [[1, 2, 3]]);
    RegisterKnownIsNoop(s1, [2]);
  }

  lemma ScenarioFlush<E>(query: seq<Key> -> map<Key, E>, a: E, c: E)
    requires query([1, 2, 3]) == map[1 := a, 3 := c]
    ensures Flushed(LoaderState([1, 2, 3], [1, 2, 3], map[], []), [1, 3], query)
         == LoaderState([1, 2, 3], [], map[1 := a, 3 := c], [[1, 2, 3]])
  {
    var s0: LoaderState<E> := LoaderState([1, 2, 3], [1, 2, 3], map[], []);
    assert NeedsFetch(s0, [1, 3]) by { assert 1 in [1, 3] && 1 in s0.pending; }
    assert map[] + map[1 := a, 3 := c] == map[1 := a, 3 := c];
  }

  lemma ScenarioRegister<E>()
    ensures Registered(Empty<E>(), [1, 2, 2, 3]) == LoaderState([1, 2, 3], [1, 2, 3], map[], [])
  {
    var k4: seq<Key> := [1, 2, 2, 3];
    ExceptNothing(k4);
    ScenarioDistinct();
  }

  lemma ScenarioDistinct()
    ensures Distinct<Key>([1, 2, 2, 3]) == [1, 2, 3]
  {
    var k3: seq<Key> := [1, 2, 2];
    assert [1, 2, 2, 3][..3] == k3;
    assert k3[..2] == [1, 2];
    DistinctOfNoDup<Key>([1, 2]);
  }

  /** The loader object. `query` is the batch function, which cannot fail. */
  class LazyQuery<E> {
    var ids: seq<Key>
    var noQueriedIds: seq<Key>
    var cache: map<Key, E>
    const query: seq<Key> -> map<Key, E>
    ghost var batches: seq<seq<Key>>

    ghost function State(): LoaderState<E>
      reads this
    {
      LoaderState(ids, noQueriedIds, cache, batches)
    }

    ghost predicate Valid()
      reads this
    {
      Inv(State())
    }

    /** `initLazyQuery(query)`: nothing known, nothing pending, nothing cached. */
    constructor (query: seq<Key> -> map<Key, E>)
      ensures Valid() && State() == Empty() && this.query == query
    {
      this.cache := map[];
      this.query := query;
      this.ids := [];
      this.noQueriedIds := [];
      this.batches := [];
    }

    /** `Set(ids...)`: registers keys; only the ones not already known become pending. */
    method Set(keys: seq<Key>)
      requires Valid()
      modifies this
      ensures Valid()
      ensures State() == Registered(old(State()), keys)
    {
      var newQuery := keys;
      var current := ids;
      var notIn := Except(newQuery, current);
      var all := Union(current, notIn);
      var currentWaiting := noQueriedIds;
      var noQuery := Union(currentWaiting, notIn);
      ids := Distinct(all);
      noQueriedIds := Distinct(noQuery);

      ghost var s := old(State());
      DistinctAppendFresh(current, notIn);
      DistinctAppendFresh(currentWaiting, notIn);
      RegisteredInv(s, keys);
      DistinctOfNoDup(Registered(s, keys).ids);
      DistinctOfNoDup(Registered(s, keys).pending);
    }

    /** Copies every entry of `m` into the cache, one key at a time; an entry
        of `m` replaces a cached one. */
    method MergeIntoCache(m: map<Key, E>)
      modifies this
      ensures cache == old(cache) + m
      ensures ids == old(ids) && noQueriedIds == old(noQueriedIds) && batches == old(batches)
    {
      var rest := m.Keys;
      while rest != {}
        invariant rest <= m.Keys
        invariant ids == old(ids) && noQueriedIds == old(noQueriedIds) && batches == old(batches)
        invariant cache == old(cache) + map k | k in m.Keys - rest :: m[k]
        decreases rest
      {
        var key :| key in rest;
        cache := cache[key := m[key]];
        rest := rest - {key};
      }
    }

    /** `Get(ids...)`: fetches all pending keys if one of the requested keys is
        pending, then answers from the cache in the order of the requested keys. */
    method Get(keys: seq<Key>) returns (result: seq<E>)
      requires Valid()
      modifies this
      ensures Valid()
      ensures State() == Flushed(old(State()), keys, query)
      ensures result == Lookup(cache, keys)
    {
      var needQuery := Intersect(keys, noQueriedIds);
      if |needQuery| != 0 {
        var queryResult := query(noQueriedIds);
        batches := batches + [noQueriedIds];
        noQueriedIds := [];
        MergeIntoCache(queryResult);
        assert needQuery[0] in keys && needQuery[0] in old(noQueriedIds);
      }
      FlushedInv(old(State()), keys, query);
      result := CachedEntities(keys);
    }

    /** The lookup loop of `Get`: the cached entity of each key, in order,
        skipping keys with none. */
    method CachedEntities(keys: seq<Key>) returns (result: seq<E>)
      ensures result == Lookup(cache, keys)
    {
      result := [];
      for i := 0 to |keys|
        invariant result == Lookup(cache, keys[..i])
      {
        assert keys[..i + 1][..i] == keys[..i];
        if keys[i] in cache {
          result := result + [cache[keys[i]]];
        }
      }
      assert keys[..|keys|] == keys;
    }
  }
}

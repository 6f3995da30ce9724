/** The unbounded mode of `_lru_cache_wrapper` (`maxsize=None`) stated on values: a
    dictionary that only grows, with hit and miss counters. */
module MemoSpec {
  import opened Common
  import opened Seqs

  /** An unbounded cache seen from outside. */
  datatype Memo<K(==), V> = Memo(store: map<K, V>, hits: nat, misses: nat)

  /** A new cache, and the cache `cache_clear` leaves. */
  function MemoCleared<K(==), V>(): (r: Memo<K, V>)
    ensures r.hits == 0 && r.misses == 0 && |r.store| == 0
  {
    Memo(map[], 0, 0)
  }

  /** The cache holds only results that the user function `f` gives for their keys. */
  ghost predicate MemoHolds<K, V>(c: Memo<K, V>, f: K -> V)
  {
    forall k :: k in c.store ==> c.store[k] == f(k)
  }

  /** The lookup: a stored result is a hit; otherwise nothing changes. */
  function MemoLookup<K(==), V>(c: Memo<K, V>, key: K): (r: (Memo<K, V>, Option<V>))
    ensures r.1.Some? <==> key in c.store
    ensures r.1.Some? ==> r.1.value == c.store[key]
    ensures r.0.store == c.store && r.0.misses == c.misses
    ensures r.0.hits == c.hits + (if key in c.store then 1 else 0)
  {
    if key in c.store then (c.(hits := c.hits + 1), Some(c.store[key])) else (c, None)
  }

  /** After a miss: the result is stored, over any result stored meanwhile, and counted. */
  function MemoInsert<K(==), V>(c: Memo<K, V>, key: K, result: V): (r: Memo<K, V>)
    ensures r.store.Keys == c.store.Keys + {key} && r.store[key] == result
    ensures forall k :: k in c.store && k != key ==> r.store[k] == c.store[k]
    ensures r.hits == c.hits && r.misses == c.misses + 1
  {
    c.(store := c.store[key := result], misses := c.misses + 1)
  }

  /** A whole call in which the user function is `f`. */
  function MemoCall<K(==), V>(c: Memo<K, V>, key: K, f: K -> V): (r: (Memo<K, V>, V))
    ensures key in r.0.store && r.0.store[key] == r.1
    ensures key !in c.store ==> r.1 == f(key)
    ensures c.store.Keys <= r.0.store.Keys
    ensures r.0.hits + r.0.misses == c.hits + c.misses + 1
  {
    var looked := MemoLookup(c, key);
    if looked.1.Some? then (looked.0, looked.1.value)
    else (MemoInsert(looked.0, key, f(key)), f(key))
  }

  /** The calls `keys`, one after another. */
  function MemoRun<K(==), V>(c: Memo<K, V>, keys: seq<K>, f: K -> V): (r: Memo<K, V>)
    ensures c.hits <= r.hits && c.misses <= r.misses
    ensures c.store.Keys <= r.store.Keys
    decreases |keys|
  {
    if keys == [] then c else MemoRun(MemoCall(c, keys[0], f).0, keys[1..], f)
  }

  /** `cache_info` of an unbounded cache. */
  function MemoInfo<K(==), V>(c: Memo<K, V>): (r: CacheInfo)
    ensures r.hits == c.hits && r.misses == c.misses && r.currsize == |c.store|
    ensures r.maxsize == Unlimited
  {
    CacheInfo(c.hits, c.misses, Unlimited, |c.store|)
  }

  /** A call is a hit exactly when its key is stored; a hit changes only the hit count, a
      miss stores `f(key)` and counts the miss; no key is ever removed. */
  lemma MemoCallSpec<K, V>(c: Memo<K, V>, key: K, f: K -> V)
    ensures var c' := MemoCall(c, key, f).0;
      && (key in c.store ==> c'.store == c.store && c'.hits == c.hits + 1 && c'.misses == c.misses)
      && (key !in c.store ==> c'.store == c.store[key := f(key)] && c'.hits == c.hits
                              && c'.misses == c.misses + 1)
      && c'.store.Keys == c.store.Keys + {key}
      && |c'.store| == |c.store| + (if key in c.store then 0 else 1)
  {
  }

  /** A cache holding only results of `f` answers every call with what `f` gives, and
      keeps holding only results of `f`. */
  lemma MemoCallResult<K, V>(c: Memo<K, V>, key: K, f: K -> V)
    requires MemoHolds(c, f)
    ensures MemoCall(c, key, f).1 == f(key) && MemoHolds(MemoCall(c, key, f).0, f)
  {
  }

  /** Over a run of calls the stored keys are the old ones and the keys called. */
  lemma {:induction false} MemoRunKeys<K, V>(c: Memo<K, V>, keys: seq<K>, f: K -> V)
    ensures MemoRun(c, keys, f).store.Keys == c.store.Keys + Elems(keys)
    decreases |keys|
  {
    if keys != [] {
      var k, rest := keys[0], keys[1..];
      MemoCallSpec(c, k, f);
      MemoRunKeys(MemoCall(c, k, f).0, rest, f);
      assert MemoRun(c, keys, f) == MemoRun(MemoCall(c, k, f).0, rest, f);
      ElemsFirst(keys);
    }
  }

  /** Over a run of calls every call is one hit or one miss. */
  lemma {:induction false} MemoRunTotal<K, V>(c: Memo<K, V>, keys: seq<K>, f: K -> V)
    ensures var c' := MemoRun(c, keys, f);
      c'.hits + c'.misses == c.hits + c.misses + |keys|
    decreases |keys|
  {
    if keys != [] {
      MemoCallSpec(c, keys[0], f);
      MemoRunTotal(MemoCall(c, keys[0], f).0, keys[1..], f);
      assert MemoRun(c, keys, f) == MemoRun(MemoCall(c, keys[0], f).0, keys[1..], f);
    }
  }

  /** Over a run of calls every miss adds one entry and no hit does. */
  lemma {:induction false} MemoRunMisses<K, V>(c: Memo<K, V>, keys: seq<K>, f: K -> V)
    ensures var c' := MemoRun(c, keys, f);
      c'.misses + |c.store| == c.misses + |c'.store|
    decreases |keys|
  {
    if keys != [] {
      var c1 := MemoCall(c, keys[0], f).0;
      MemoCallSpec(c, keys[0], f);
      MemoRunMisses(c1, keys[1..], f);
      assert MemoRun(c, keys, f) == MemoRun(c1, keys[1..], f);
    }
  }

  /** Over a run of calls the cache keeps holding only results of `f`. */
  lemma {:induction false} MemoRunHolds<K, V>(c: Memo<K, V>, keys: seq<K>, f: K -> V)
    requires MemoHolds(c, f)
    ensures MemoHolds(MemoRun(c, keys, f), f)
    decreases |keys|
  {
    if keys != [] {
      MemoCallResult(c, keys[0], f);
      MemoRunHolds(MemoCall(c, keys[0], f).0, keys[1..], f);
    }
  }

  /** From a new cache: one entry per distinct key called, each of them a miss once. */
  lemma MemoFromCleared<K, V>(keys: seq<K>, f: K -> V)
    ensures var c := MemoRun(MemoCleared(), keys, f);
      && c.store.Keys == Elems(keys)
      && |c.store| == c.misses == |Elems(keys)|
      && c.hits == |keys| - |Elems(keys)|
  {
    var c0: Memo<K, V> := MemoCleared();
    MemoRunKeys(c0, keys, f);
    MemoRunTotal(c0, keys, f);
    MemoRunMisses(c0, keys, f);
    var c := MemoRun(c0, keys, f);
    assert |c.store| == |c.store.Keys|;
  }
}

/** The mode that `maxsize=0` selects: nothing is cached and every call is a miss. */
module DisabledSpec {
  import opened Common

  /** The counters of a cache that caches nothing. */
  datatype Counts = Counts(hits: nat, misses: nat)

  /** A call: the user function runs and, once it has returned, the miss is counted. */
  function DisabledCall<A, V>(c: Counts, arg: A, f: A -> V): (r: (Counts, V))
    ensures r.1 == f(arg)
    ensures r.0.hits == c.hits && r.0.misses == c.misses + 1
  {
    (c.(misses := c.misses + 1), f(arg))
  }

  /** The calls `args`, one after another. */
  function DisabledRun<A, V>(c: Counts, args: seq<A>, f: A -> V): (r: Counts)
    ensures r.hits == c.hits && c.misses <= r.misses
    decreases |args|
  {
    if args == [] then c else DisabledRun(DisabledCall(c, args[0], f).0, args[1..], f)
  }

  /** `cache_info` of a cache that caches nothing: `maxsize` is 0 and so is `currsize`. */
  function DisabledInfo(c: Counts): (r: CacheInfo)
    ensures r.hits == c.hits && r.misses == c.misses
    ensures r.maxsize == Limit(0) && r.currsize == 0
  {
    CacheInfo(c.hits, c.misses, Limit(0), 0)
  }

  /** Each call is counted as a miss and never as a hit, and returns what `f` gives. */
  lemma {:induction false} DisabledRunSpec<A, V>(c: Counts, args: seq<A>, f: A -> V)
    ensures DisabledRun(c, args, f).hits == c.hits
    ensures DisabledRun(c, args, f).misses == c.misses + |args|
    decreases |args|
  {
    if args != [] {
      DisabledRunSpec(DisabledCall(c, args[0], f).0, args[1..], f);
    }
  }
}

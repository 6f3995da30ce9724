/** The bounded mode of `_lru_cache_wrapper` (a positive `maxsize`) stated on values:
    what the dictionary and the recency list hold together, what each of the two
    locked regions of a call does to them, and what a run of calls leaves behind. */
module LruSpec {
  import opened Common
  import opened Seqs

  /** A bounded cache seen from outside. `order` lists the cached keys from the least
      recently used one (`root[NEXT]`) round to the most recently used one (`root[PREV]`);
      `store` maps each of them to its result. */
  datatype Lru<K(==), V> = Lru(order: seq<K>, store: map<K, V>, hits: nat, misses: nat, full: bool)

  /** A new cache, and the cache `cache_clear` leaves. */
  function Cleared<K(==), V>(): (r: Lru<K, V>)
    ensures r.hits == 0 && r.misses == 0 && |r.store| == 0 && !r.full
    ensures forall maxsize :: 0 < maxsize ==> Inv(r, maxsize)
  {
    Lru([], map[], 0, 0, false)
  }

  /** The dictionary and the list are in bijection: no key is on the list twice, every key
      on the list is in the dictionary, and there are as many entries as links (so the
      dictionary holds nothing else, see `KeysAreOrder`). A full cache is never empty. */
  ghost predicate WellFormed<K, V>(c: Lru<K, V>)
  {
    && Distinct(c.order)
    && (forall j :: 0 <= j < |c.order| ==> c.order[j] in c.store)
    && |c.store| == |c.order|
    && (c.full ==> c.order != [])
  }

  /** The invariant of a bounded cache: never more than `maxsize` entries, and `full`
      exactly when there are `maxsize` of them. */
  ghost predicate Inv<K, V>(c: Lru<K, V>, maxsize: int)
  {
    && WellFormed(c)
    && |c.order| <= maxsize
    && (c.full <==> |c.order| == maxsize)
  }

  /** A result that the user function `f` gives for its key is all the cache holds. */
  ghost predicate Memoizes<K, V>(c: Lru<K, V>, f: K -> V)
  {
    forall k :: k in c.store ==> c.store[k] == f(k)
  }

  /** Moving `key` to the most recently used end. */
  function Promote<K(==)>(order: seq<K>, key: K): seq<K>
  {
    Without(order, key) + [key]
  }

  /** The first locked region of a call: on a hit the link is moved to the most recently
      used end and the hit is counted; on a miss nothing changes. */
  function Lookup<K(==), V>(c: Lru<K, V>, key: K): (r: (Lru<K, V>, Option<V>))
    ensures r.1.Some? <==> key in c.store
    ensures r.1.Some? ==> r.1.value == c.store[key]
    ensures r.0.store == c.store && r.0.misses == c.misses && r.0.full == c.full
    ensures r.0.hits == c.hits + (if key in c.store then 1 else 0)
    ensures r.1.None? ==> r.0 == c
  {
    if key in c.store then
      (c.(order := Promote(c.order, key), hits := c.hits + 1), Some(c.store[key]))
    else
      (c, None)
  }

  /** The second locked region of a call, once the user function has returned `result`. */
  function Insert<K(==), V>(c: Lru<K, V>, maxsize: int, key: K, result: V): (r: Lru<K, V>)
    requires c.full ==> c.order != []
    ensures key in r.store && (key !in c.store ==> r.store[key] == result)
    ensures key in c.store ==> r.store == c.store && r.order == c.order && r.full == c.full
    ensures r.hits == c.hits && r.misses == c.misses + 1
    ensures r.full ==> r.order != []
  {
    if key in c.store then
      // another call stored the key while this one was computing
      c.(misses := c.misses + 1)
    else if c.full then
      // the old root takes the new entry and the oldest link becomes the root
      var oldkey := c.order[0];
      c.(order := c.order[1..] + [key], store := (c.store - {oldkey})[key := result],
         misses := c.misses + 1)
    else
      var store := c.store[key := result];
      c.(order := c.order + [key], store := store, full := |store| >= maxsize,
         misses := c.misses + 1)
  }

  /** A whole call in which the user function is `f` and does not call the cache again. */
  function Call<K(==), V>(c: Lru<K, V>, maxsize: int, key: K, f: K -> V): (r: (Lru<K, V>, V))
    requires c.full ==> c.order != []
    ensures key in r.0.store && r.0.store[key] == r.1
    ensures key !in c.store ==> r.1 == f(key)
    ensures r.0.hits + r.0.misses == c.hits + c.misses + 1
    ensures r.0.full ==> r.0.order != []
  {
    var looked := Lookup(c, key);
    if looked.1.Some? then (looked.0, looked.1.value)
    else (Insert(looked.0, maxsize, key, f(key)), f(key))
  }

  /** The state after calls with `keys`, one after the other. */
  function Run<K(==), V>(c: Lru<K, V>, maxsize: int, keys: seq<K>, f: K -> V): (r: Lru<K, V>)
    requires c.full ==> c.order != []
    ensures c.hits <= r.hits && c.misses <= r.misses
    ensures r.full ==> r.order != []
    decreases |keys|
  {
    if keys == [] then c else Run(Call(c, maxsize, keys[0], f).0, maxsize, keys[1..], f)
  }

  /** What `cache_info` reports. */
  function Info<K(==), V>(c: Lru<K, V>, maxsize: int): (r: CacheInfo)
    ensures r.hits == c.hits && r.misses == c.misses
    ensures r.maxsize == Limit(maxsize) && r.currsize == |c.store|
  {
    CacheInfo(c.hits, c.misses, Limit(maxsize), |c.store|)
  }

  /** The dictionary's keys are exactly the keys on the list. */
  lemma KeysAreOrder<K, V>(c: Lru<K, V>)
    requires WellFormed(c)
    ensures forall k :: k in c.store <==> k in c.order
  {
    var onList := Elems(c.order);
    SizeOfDistinct(c.order, onList);
    assert onList <= c.store.Keys;
    SubsetOfSameSize(onList, c.store.Keys);
  }

  /** A hit returns the stored result and counts one hit; the key moves to the most
      recently used end, the other keys keep their relative order, nothing is added
      or dropped. */
  lemma LookupHit<K, V>(c: Lru<K, V>, maxsize: int, key: K)
    requires Inv(c, maxsize) && key in c.store
    ensures var c', r := Lookup(c, key).0, Lookup(c, key).1;
      && r == Some(c.store[key])
      && c'.hits == c.hits + 1 && c'.misses == c.misses
      && c'.store == c.store && c'.full == c.full
      && |c'.order| == |c.order|
      && c'.order[|c'.order| - 1] == key
      && Without(c'.order, key) == Without(c.order, key)
      && Inv(c', maxsize)
  {
    KeysAreOrder(c);
    var w := Without(c.order, key);
    WithoutConcat(w, [key], key);
    WithoutAbsent(w, key);
    assert Without([key], key) == [];
    var order' := w + [key];
    assert Distinct(order') by {
      forall i, j | 0 <= i < j < |order'| ensures order'[i] != order'[j] {
        if j == |order'| - 1 { assert order'[i] in w; }
      }
    }
    forall j | 0 <= j < |order'| ensures order'[j] in c.store {
      if j < |w| { assert order'[j] in w; }
    }
  }

  /** A miss on a cache that is not full adds the key at the most recently used end with
      its result, counts one miss, and sets `full` when the size reaches `maxsize`. */
  lemma InsertNotFull<K, V>(c: Lru<K, V>, maxsize: int, key: K, result: V)
    requires Inv(c, maxsize) && key !in c.store && !c.full
    ensures var c' := Insert(c, maxsize, key, result);
      && c'.order == c.order + [key]
      && c'.store == c.store[key := result]
      && |c'.store| == |c.store| + 1
      && c'.full == (|c'.store| == maxsize)
      && c'.hits == c.hits && c'.misses == c.misses + 1
      && Inv(c', maxsize)
  {
    var c' := Insert(c, maxsize, key, result);
    assert Distinct(c'.order) by {
      forall i, j | 0 <= i < j < |c'.order| ensures c'.order[i] != c'.order[j] {
        if j == |c.order| { assert c'.order[i] in c.order; }
      }
    }
  }

  /** A miss on a full cache evicts exactly one key, the least recently used one, adds
      the new key at the most recently used end, and keeps the size at `maxsize`. */
  lemma InsertFull<K, V>(c: Lru<K, V>, maxsize: int, key: K, result: V)
    requires Inv(c, maxsize) && key !in c.store && c.full
    ensures c.order != []
    ensures var c' := Insert(c, maxsize, key, result);
      && c'.order == c.order[1..] + [key]
      && c.store.Keys - c'.store.Keys == {c.order[0]}
      && c'.store.Keys - c.store.Keys == {key}
      && c'.store[key] == result
      && (forall k :: k in c'.store && k != key ==> c'.store[k] == c.store[k])
      && |c'.store| == |c.store| == maxsize
      && c'.full
      && c'.hits == c.hits && c'.misses == c.misses + 1
      && Inv(c', maxsize)
  {
    var oldkey := c.order[0];
    ReplaceKey(c.store, oldkey, key, result);
    InsertFullInv(c, maxsize, key, result);
  }

  /** The invariant survives the recycling of the oldest link. */
  lemma InsertFullInv<K, V>(c: Lru<K, V>, maxsize: int, key: K, result: V)
    requires Inv(c, maxsize) && key !in c.store && c.full
    ensures Inv(Insert(c, maxsize, key, result), maxsize)
  {
    var oldkey, rest := c.order[0], c.order[1..];
    var c' := Insert(c, maxsize, key, result);
    assert c'.order == rest + [key] && c'.store == (c.store - {oldkey})[key := result];
    DropOldest(c.order);
    DistinctSnoc(rest, key);
    assert c.order[0] in c.store;
  }

  /** Dropping the first element of a repetition-free sequence drops exactly that element. */
  lemma DropOldest<K>(order: seq<K>)
    requires Distinct(order) && order != []
    ensures Distinct(order[1..])
    ensures forall k :: k in order[1..] ==> k in order && k != order[0]
    ensures forall k :: k in order && k != order[0] ==> k in order[1..]
  {
    assert order == [order[0]] + order[1..];
    forall i | 0 <= i < |order| - 1 ensures order[1..][i] != order[0] {
      assert order[1..][i] == order[i + 1];
    }
  }

  /** Deleting one key and adding another changes the key set by exactly those two. */
  lemma ReplaceKey<K, V>(m: map<K, V>, oldkey: K, key: K, result: V)
    requires oldkey in m && key !in m
    ensures var m' := (m - {oldkey})[key := result];
      && m.Keys - m'.Keys == {oldkey}
      && m'.Keys - m.Keys == {key}
      && |m'| == |m|
  {
    var m' := (m - {oldkey})[key := result];
    assert m'.Keys == m.Keys - {oldkey} + {key};
  }

  /** If the key was stored while the user function ran, only the miss is counted. */
  lemma InsertPresent<K, V>(c: Lru<K, V>, maxsize: int, key: K, result: V)
    requires WellFormed(c) && key in c.store
    ensures var c' := Insert(c, maxsize, key, result);
      && c'.order == c.order && c'.store == c.store && c'.full == c.full
      && c'.hits == c.hits && c'.misses == c.misses + 1
  {
  }

  /** Every call keeps the invariant, counts exactly one hit or one miss (a hit exactly
      when the key was cached), and returns what `f` gives when the cache holds only
      results of `f`. */
  lemma CallSpec<K, V>(c: Lru<K, V>, maxsize: int, key: K, f: K -> V)
    requires Inv(c, maxsize) && Memoizes(c, f)
    ensures var c', r := Call(c, maxsize, key, f).0, Call(c, maxsize, key, f).1;
      && r == f(key)
      && c'.hits == c.hits + (if key in c.store then 1 else 0)
      && c'.misses == c.misses + (if key in c.store then 0 else 1)
      && Inv(c', maxsize)
      && Memoizes(c', f)
  {
    if key in c.store {
      LookupHit(c, maxsize, key);
    } else if c.full {
      InsertFull(c, maxsize, key, f(key));
    } else {
      InsertNotFull(c, maxsize, key, f(key));
    }
  }

  /** Over any run of calls, `hits + misses` grows by the number of calls, the invariant
      holds throughout, and the cache keeps holding only results of `f`. */
  lemma {:induction false} RunSpec<K, V>(c: Lru<K, V>, maxsize: int, keys: seq<K>, f: K -> V)
    requires Inv(c, maxsize) && Memoizes(c, f)
    ensures var c' := Run(c, maxsize, keys, f);
      && c'.hits + c'.misses == c.hits + c.misses + |keys|
      && Inv(c', maxsize)
      && Memoizes(c', f)
    decreases |keys|
  {
    if keys != [] {
      CallSpec(c, maxsize, keys[0], f);
      RunSpec(Call(c, maxsize, keys[0], f).0, maxsize, keys[1..], f);
    }
  }

  /** Running `keys + [k]` is running `keys`, then one more call. */
  lemma {:induction false} RunSnoc<K, V>(c: Lru<K, V>, maxsize: int, keys: seq<K>, k: K, f: K -> V)
    requires WellFormed(c)
    ensures Run(c, maxsize, keys, f).full ==> Run(c, maxsize, keys, f).order != []
    ensures Run(c, maxsize, keys + [k], f) == Call(Run(c, maxsize, keys, f), maxsize, k, f).0
    decreases |keys|
  {
    if keys == [] {
      assert [k][1..] == [];
    } else {
      var c1 := Call(c, maxsize, keys[0], f).0;
      assert (keys + [k])[1..] == keys[1..] + [k];
      CallKeepsWellFormed(c, maxsize, keys[0], f);
      RunSnoc(c1, maxsize, keys[1..], k, f);
    }
  }

  /** Every call keeps the list and the dictionary in bijection, whatever `maxsize` is. */
  lemma CallKeepsWellFormed<K, V>(c: Lru<K, V>, maxsize: int, key: K, f: K -> V)
    requires WellFormed(c)
    ensures WellFormed(Call(c, maxsize, key, f).0)
  {
    if key in c.store {
      LookupHit(c, if c.full then |c.order| else |c.order| + 1, key);
    } else if c.full {
      InsertFull(c, |c.order|, key, f(key));
    } else {
      DistinctSnoc(c.order, key);
    }
  }

  /** One miss with a new key on a cache holding the newest keys of `p`. */
  lemma FillStep<K, V>(c: Lru<K, V>, maxsize: int, p: seq<K>, k: K, v: V)
    requires 0 < maxsize && Inv(c, maxsize)
    requires c.order == Newest(p, maxsize) && k !in p
    ensures Inv(Insert(c, maxsize, k, v), maxsize)
    ensures Insert(c, maxsize, k, v).order == Newest(p + [k], maxsize)
  {
    KeysAreOrder(c);
    assert k !in c.order;
    if c.full {
      InsertFull(c, maxsize, k, v);
      NewestSnoc(p, k, maxsize);
    } else {
      InsertNotFull(c, maxsize, k, v);
      NewestSnoc(p, k, maxsize);
    }
  }

  /** After calls with distinct keys on an empty cache, the cache holds the newest
      `maxsize` of them (all of them while there are fewer), least recent first. */
  lemma {:induction false} FillFromEmpty<K, V>(maxsize: int, keys: seq<K>, f: K -> V)
    requires 0 < maxsize && Distinct(keys)
    ensures var c := Run(Cleared(), maxsize, keys, f);
      && Inv(c, maxsize)
      && c.order == Newest(keys, maxsize)
    decreases |keys|
  {
    var empty: Lru<K, V> := Cleared();
    if keys != [] {
      var p, k := keys[..|keys| - 1], keys[|keys| - 1];
      assert keys == p + [k];
      assert Distinct(p);
      FillFromEmpty(maxsize, p, f);
      var c0 := Run(empty, maxsize, p, f);
      RunSnoc(empty, maxsize, p, k, f);
      assert k !in p;
      FillStep(c0, maxsize, p, k, f(k));
      assert k !in c0.store;
    }
  }

  /** Calling with `maxsize + 1` distinct keys in turn leaves `maxsize` entries: the first
      key is gone, every later one is cached. */
  lemma BoundedEviction<K, V>(maxsize: int, keys: seq<K>, f: K -> V)
    requires 0 < maxsize && Distinct(keys) && |keys| == maxsize + 1
    ensures var c := Run(Cleared(), maxsize, keys, f);
      && Info(c, maxsize).currsize == maxsize
      && keys[0] !in c.store
      && forall j :: 1 <= j < |keys| ==> keys[j] in c.store
  {
    FillFromEmpty(maxsize, keys, f);
    var c := Run(Cleared(), maxsize, keys, f);
    assert c.order == keys[1..];
    assert keys[0] !in keys[1..];
    KeysAreOrder(c);
    forall j | 1 <= j < |keys| ensures keys[j] in c.store {
      assert keys[j] == c.order[j - 1];
    }
  }

  /** A miss with a third key on a full cache of two evicts the older one. */
  lemma EvictStep<K, V>(c: Lru<K, V>, older: K, newer: K, k: K, f: K -> V)
    requires Inv(c, 2) && c.full && c.order == [older, newer] && k != older && k != newer
    ensures Call(c, 2, k, f).0.order == [newer, k] && Inv(Call(c, 2, k, f).0, 2)
  {
    assert k !in c.store by {
      KeysAreOrder(c);
      assert k !in c.order;
    }
    InsertFull(c, 2, k, f(k));
    assert c.order[1..] == [newer];
  }

  /** A hit on the older of two keys makes it the newer one. */
  lemma PromoteStep<K, V>(c: Lru<K, V>, older: K, newer: K, f: K -> V)
    requires Inv(c, 2) && c.order == [older, newer]
    ensures Call(c, 2, older, f).0.order == [newer, older] && Inv(Call(c, 2, older, f).0, 2)
    ensures Call(c, 2, older, f).0.full
  {
    assert c.order[0] in c.store;
    LookupHit(c, 2, older);
    WithoutAt(c.order, 0);
  }

  /** With room for two, after k1, k2 and k1 again, k2 is the least recently used key. */
  lemma RepeatFirst<K, V>(k1: K, k2: K, f: K -> V)
    requires k1 != k2
    ensures var c := Run(Cleared(), 2, [k1, k2, k1], f);
      c.order == [k2, k1] && Inv(c, 2) && c.full
  {
    var c0: Lru<K, V> := Cleared();
    FillFromEmpty(2, [k1, k2], f);
    var c2 := Run(c0, 2, [k1, k2], f);
    PromoteStep(c2, k1, k2, f);
    RunSnoc(c0, 2, [k1, k2], k1, f);
    assert [k1, k2] + [k1] == [k1, k2, k1];
  }

  /** With room for two, after k1, k2 and a second call with k1, a call with k3 evicts
      k2, the least recently used key, and keeps k1 and k3. */
  lemma RecencyPromotion<K, V>(k1: K, k2: K, k3: K, f: K -> V)
    requires k1 != k2 && k2 != k3 && k1 != k3
    ensures var c := Run(Cleared(), 2, [k1, k2, k1, k3], f);
      && c.order == [k1, k3]
      && k2 !in c.store && k1 in c.store && k3 in c.store
  {
    var c0: Lru<K, V> := Cleared();
    RepeatFirst(k1, k2, f);
    var c3 := Run(c0, 2, [k1, k2, k1], f);
    EvictStep(c3, k2, k1, k3, f);
    RunSnoc(c0, 2, [k1, k2, k1], k3, f);
    assert [k1, k2, k1] + [k3] == [k1, k2, k1, k3];
  }
}

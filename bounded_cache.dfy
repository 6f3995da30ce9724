/**
 * The bounded mode of `_lru_cache_wrapper` as the source builds it: a dictionary from keys
 * to links, and the links in a circular doubly linked list around a root link that holds
 * no entry.  The links live in an array (`Arena`); the class keeps, as ghost state, the
 * keys in recency order, the slots of their links in the same order and the stored results,
 * and every method is proved to act on that state as `LruSpec` says.
 */
module BoundedLru {
  import opened Common
  import opened Seqs
  import opened Arena
  import opened LruSpec

  /** The list: the root and the links `chain` form a ring, no slot twice, exactly the
      slots below `used` in use, and the root holds neither key nor result. */
  ghost predicate Layout<K, V>(s: seq<Link<K, V>>, root: nat, used: nat, chain: seq<nat>)
  {
    var r := [root] + chain;
    && Closed(s)
    && Ring(s, r)
    && Distinct(r)
    && root < used
    && (forall j :: 0 <= j < |chain| ==> chain[j] < used)
    && used == |r| <= |s|
    && s[root].key == None && s[root].result == None
  }

  /** The link at `chain[j]` holds the key `order[j]` and its stored result. */
  ghost predicate Holds<K, V>(s: seq<Link<K, V>>, chain: seq<nat>, order: seq<K>, store: map<K, V>)
  {
    && |chain| == |order|
    && (forall j :: 0 <= j < |chain| ==>
          && chain[j] < |s| && order[j] in store
          && s[chain[j]].key == Some(order[j])
          && s[chain[j]].result == Some(store[order[j]]))
  }

  /** The dictionary has the stored keys, and maps each to the slot of its link. */
  ghost predicate Indexes<K, V>(cache: map<K, nat>, chain: seq<nat>, order: seq<K>, store: map<K, V>)
  {
    && |chain| == |order|
    && cache.Keys == store.Keys
    && (forall j :: 0 <= j < |order| ==> order[j] in cache && cache[order[j]] == chain[j])
  }

  /** The arena, the dictionary and the ghost `chain` represent the keys `order` with the
      results `store`. */
  ghost predicate Represents<K, V>(s: seq<Link<K, V>>, root: nat, used: nat, cache: map<K, nat>,
                                   chain: seq<nat>, order: seq<K>, store: map<K, V>)
  {
    Layout(s, root, used, chain) && Holds(s, chain, order, store) && Indexes(cache, chain, order, store)
  }

  /** The link of a cached key is the one at its position in `chain`. */
  lemma FindLink<K, V>(cache: map<K, nat>, chain: seq<nat>, order: seq<K>, store: map<K, V>, key: K)
      returns (i: nat)
    requires Indexes(cache, chain, order, store)
    requires WellFormed(Lru(order, store, 0, 0, false)) && key in cache
    ensures i < |order| && order[i] == key && cache[key] == chain[i]
  {
    KeysAreOrder(Lru(order, store, 0, 0, false));
    assert key in order;
    i :| 0 <= i < |order| && order[i] == key;
  }

  /** What `cache_clear` leaves: the root alone at slot 0. */
  lemma ClearLayout<K, V>(s: seq<Link<K, V>>)
    requires Closed(s) && |s| > 0
    ensures Represents(s[0 := Link(0, 0, None, None)], 0, 1, map[], [], [], map[])
  {
    var s' := s[0 := Link(0, 0, None, None)];
    assert forall t :: 0 <= t < |s'| ==> s'[t].prev < |s'| && s'[t].next < |s'| by {
      forall t | 0 <= t < |s'| ensures s'[t].prev < |s'| && s'[t].next < |s'| {
        if t != 0 { assert s'[t] == s[t]; }
      }
    }
  }

  // ---------------------------------------------------------------------------------
  // A hit

  /** The list after a hit on the key at position `i`. */
  lemma HitLayout<K, V>(s: seq<Link<K, V>>, root: nat, used: nat, chain: seq<nat>, i: nat)
    requires Layout(s, root, used, chain) && i < |chain|
    ensures Layout(MoveToBack(s, root, chain[i]), root, used, MoveToEnd(chain, i))
    ensures SameContents(s, MoveToBack(s, root, chain[i]))
  {
    var r := [root] + chain;
    assert r[i + 1] == chain[i];
    MoveToBackRing(s, r, i + 1);
    MoveToEndCons(root, chain, i);
    MoveToEndDistinct(r, i + 1);
    MoveToEndAt(chain, i);
    var chain' := MoveToEnd(chain, i);
    forall j | 0 <= j < |chain'| ensures chain'[j] < used {
      assert chain'[j] == chain[Source(|chain|, i, j)];
    }
  }

  /** The entries after a hit on the key at position `i`. */
  lemma HitHolds<K, V>(s: seq<Link<K, V>>, s': seq<Link<K, V>>, chain: seq<nat>,
                       order: seq<K>, store: map<K, V>, i: nat)
    requires Holds(s, chain, order, store) && SameContents(s, s') && i < |chain|
    ensures Holds(s', MoveToEnd(chain, i), MoveToEnd(order, i), store)
  {
    var n := |chain|;
    MoveToEndAt(chain, i);
    MoveToEndAt(order, i);
    var chain', order' := MoveToEnd(chain, i), MoveToEnd(order, i);
    forall j | 0 <= j < n
      ensures && chain'[j] < |s'| && order'[j] in store
              && s'[chain'[j]].key == Some(order'[j])
              && s'[chain'[j]].result == Some(store[order'[j]])
    {
      var k := Source(n, i, j);
      assert chain'[j] == chain[k] && order'[j] == order[k];
    }
  }

  /** The dictionary after a hit on the key at position `i`. */
  lemma HitIndexes<K, V>(cache: map<K, nat>, chain: seq<nat>, order: seq<K>, store: map<K, V>, i: nat)
    requires Indexes(cache, chain, order, store) && i < |chain|
    ensures Indexes(cache, MoveToEnd(chain, i), MoveToEnd(order, i), store)
  {
    var n := |chain|;
    MoveToEndAt(chain, i);
    MoveToEndAt(order, i);
    var chain', order' := MoveToEnd(chain, i), MoveToEnd(order, i);
    forall j | 0 <= j < n ensures order'[j] in cache && cache[order'[j]] == chain'[j] {
      var k := Source(n, i, j);
      assert chain'[j] == chain[k] && order'[j] == order[k];
    }
  }

  // ---------------------------------------------------------------------------------
  // A miss on a full cache

  /** The list after the root is recycled: the oldest link is the new root and the old
      root the newest link. */
  lemma RecycleLayout<K, V>(s: seq<Link<K, V>>, root: nat, used: nat, chain: seq<nat>, key: K, result: V)
    requires Layout(s, root, used, chain) && chain != []
    ensures Layout(Recycle(s, root, key, result), chain[0], used, chain[1..] + [root])
  {
    var r := [root] + chain;
    var s' := Recycle(s, root, key, result);
    RecycleLinks(s, r, key, result);
    RotateRing(s, s', r);
    RotateDistinct(r);
    assert r[1..] + [r[0]] == [chain[0]] + (chain[1..] + [root]);
    var chain' := chain[1..] + [root];
    forall j | 0 <= j < |chain'| ensures chain'[j] < used {
      if j < |chain| - 1 { assert chain'[j] == chain[j + 1]; }
    }
  }

  /** The entries after the root is recycled for `key`. */
  lemma RecycleHolds<K, V>(s: seq<Link<K, V>>, root: nat, used: nat, chain: seq<nat>,
                           order: seq<K>, store: map<K, V>, key: K, result: V)
    requires Layout(s, root, used, chain) && Holds(s, chain, order, store)
    requires chain != [] && Distinct(order) && key !in store
    ensures Holds(Recycle(s, root, key, result), chain[1..] + [root],
                  order[1..] + [key], (store - {order[0]})[key := result])
  {
    var r := [root] + chain;
    var s' := Recycle(s, root, key, result);
    RecycleLinks(s, r, key, result);
    var chain', order', store' := chain[1..] + [root], order[1..] + [key], (store - {order[0]})[key := result];
    forall j | 0 <= j < |chain'|
      ensures && chain'[j] < |s'| && order'[j] in store'
              && s'[chain'[j]].key == Some(order'[j])
              && s'[chain'[j]].result == Some(store'[order'[j]])
    {
      if j < |chain| - 1 {
        assert chain'[j] == chain[j + 1] == r[j + 2] && order'[j] == order[j + 1];
        assert r[j + 2] != r[0] && r[j + 2] != r[1];
        assert order[j + 1] != order[0];
      }
    }
  }

  /** The dictionary after the oldest key is deleted and `key` maps to the old root. */
  lemma RecycleIndexes<K, V>(cache: map<K, nat>, root: nat, chain: seq<nat>, order: seq<K>,
                             store: map<K, V>, key: K, result: V)
    requires Indexes(cache, chain, order, store) && chain != [] && Distinct(order) && key !in store
    ensures Indexes((cache - {order[0]})[key := root], chain[1..] + [root],
                    order[1..] + [key], (store - {order[0]})[key := result])
  {
    var cache', chain', order' := (cache - {order[0]})[key := root], chain[1..] + [root], order[1..] + [key];
    forall j | 0 <= j < |order'| ensures order'[j] in cache' && cache'[order'[j]] == chain'[j] {
      if j < |order| - 1 {
        assert order'[j] == order[j + 1] != order[0];
        assert chain'[j] == chain[j + 1];
      }
    }
  }

  // ---------------------------------------------------------------------------------
  // A miss on a cache that is not full

  /** The list after a new link is added at slot `used`. */
  lemma AppendLayout<K, V>(s: seq<Link<K, V>>, root: nat, used: nat, chain: seq<nat>, key: K, result: V)
    requires Layout(s, root, used, chain) && used < |s|
    ensures Layout(Append(s, root, used, key, result), root, used + 1, chain + [used])
  {
    var r := [root] + chain;
    assert used !in r by {
      forall j | 0 <= j < |r| ensures r[j] != used {
        if j > 0 { assert r[j] == chain[j - 1]; }
      }
    }
    AppendRing(s, r, used, key, result);
    DistinctSnoc(r, used);
    assert r + [used] == [root] + (chain + [used]);
  }

  /** The entries after `key` is added in a new link at slot `used`. */
  lemma AppendHolds<K, V>(s: seq<Link<K, V>>, root: nat, used: nat, chain: seq<nat>,
                          order: seq<K>, store: map<K, V>, key: K, result: V)
    requires Layout(s, root, used, chain) && Holds(s, chain, order, store)
    requires used < |s| && key !in store
    ensures Holds(Append(s, root, used, key, result), chain + [used], order + [key], store[key := result])
  {
    var r := [root] + chain;
    AppendLayout(s, root, used, chain, key, result);
    AppendPointers(s, r, used, key, result);
    var s' := Append(s, root, used, key, result);
    var chain', order', store' := chain + [used], order + [key], store[key := result];
    forall j | 0 <= j < |chain'|
      ensures && chain'[j] < |s'| && order'[j] in store'
              && s'[chain'[j]].key == Some(order'[j])
              && s'[chain'[j]].result == Some(store'[order'[j]])
    {
      if j < |chain| {
        assert chain'[j] == chain[j] < used && order'[j] == order[j] != key;
      }
    }
  }

  /** The dictionary after `key` is mapped to the new link at slot `used`. */
  lemma AppendIndexes<K, V>(cache: map<K, nat>, used: nat, chain: seq<nat>, order: seq<K>,
                            store: map<K, V>, key: K, result: V)
    requires Indexes(cache, chain, order, store) && key !in store
    ensures Indexes(cache[key := used], chain + [used], order + [key], store[key := result])
  {
    var chain', order' := chain + [used], order + [key];
    forall j | 0 <= j < |order'| ensures order'[j] in cache[key := used] && cache[key := used][order'[j]] == chain'[j] {
      if j < |order| {
        assert order'[j] == order[j] != key;
      }
    }
  }

  // ---------------------------------------------------------------------------------
  // The three steps on the whole representation

  /** A hit on `key`: its link is the one at its position `i` in the recency order, it
      holds the stored result, and the spec's lookup moves position `i` to the end. */
  lemma HitLink<K, V>(s: seq<Link<K, V>>, root: nat, used: nat, cache: map<K, nat>, chain: seq<nat>,
                      c: Lru<K, V>, maxsize: int, key: K) returns (i: nat)
    requires Represents(s, root, used, cache, chain, c.order, c.store) && Inv(c, maxsize)
    requires key in cache
    ensures i < |chain| == |c.order| && c.order[i] == key && cache[key] == chain[i] && key in c.store
    ensures Closed(s) && root < |s| && chain[i] < |s| && s[chain[i]].result == Some(c.store[key])
    ensures Lookup(c, key) == (c.(order := MoveToEnd(c.order, i), hits := c.hits + 1), Some(c.store[key]))
  {
    i := FindLink(cache, chain, c.order, c.store, key);
    WithoutThenAppend(c.order, i);
  }

  /** Moving the link at `chain[i]` to the end of the ring represents the cache after the
      spec's lookup of the key at position `i`. */
  lemma HitStep<K, V>(s: seq<Link<K, V>>, root: nat, used: nat, cache: map<K, nat>, chain: seq<nat>,
                      c: Lru<K, V>, maxsize: int, key: K, i: nat)
    requires Represents(s, root, used, cache, chain, c.order, c.store) && Inv(c, maxsize)
    requires i < |chain| && c.order[i] == key
    ensures var c' := Lookup(c, key).0;
      && Represents(MoveToBack(s, root, chain[i]), root, used, cache, MoveToEnd(chain, i), c'.order, c'.store)
      && Inv(c', maxsize)
  {
    HitLayout(s, root, used, chain, i);
    HitHolds(s, MoveToBack(s, root, chain[i]), chain, c.order, c.store, i);
    HitIndexes(cache, chain, c.order, c.store, i);
    WithoutThenAppend(c.order, i);
    LookupHit(c, maxsize, key);
  }

  /** A miss with `key` on a full cache: the root's successor is the oldest link, it holds
      the oldest key, and what the spec's insertion leaves. */
  lemma RecycleLink<K, V>(s: seq<Link<K, V>>, root: nat, used: nat, cache: map<K, nat>, chain: seq<nat>,
                          c: Lru<K, V>, maxsize: int, key: K, result: V)
    requires Represents(s, root, used, cache, chain, c.order, c.store) && Inv(c, maxsize)
    requires c.full && key !in cache
    ensures chain != [] && |c.order| == |chain|
    ensures Closed(s) && root < |s| && s[root].next == chain[0] != root
    ensures s[chain[0]].key == Some(c.order[0])
    ensures Insert(c, maxsize, key, result)
      == Lru(c.order[1..] + [key], (c.store - {c.order[0]})[key := result], c.hits, c.misses + 1, c.full)
  {
    assert ([root] + chain)[1] == chain[0];
  }

  /** Recycling the root represents the cache after the spec's insertion on a full cache. */
  lemma RecycleStep<K, V>(s: seq<Link<K, V>>, root: nat, used: nat, cache: map<K, nat>, chain: seq<nat>,
                          c: Lru<K, V>, maxsize: int, key: K, result: V)
    requires Represents(s, root, used, cache, chain, c.order, c.store) && Inv(c, maxsize)
    requires 0 < maxsize && c.full && key !in cache && chain != [] && c.order != []
    ensures var c' := Insert(c, maxsize, key, result);
      && Represents(Recycle(s, root, key, result), chain[0], used, (cache - {c.order[0]})[key := root],
                    chain[1..] + [root], c'.order, c'.store)
      && Inv(c', maxsize)
  {
    RecycleLayout(s, root, used, chain, key, result);
    RecycleHolds(s, root, used, chain, c.order, c.store, key, result);
    RecycleIndexes(cache, root, chain, c.order, c.store, key, result);
    InsertFull(c, maxsize, key, result);
  }

  /** A miss with `key` on a cache that is not full: slot `used` is free, and what the spec's
      insertion leaves. */
  lemma AppendSlot<K, V>(s: seq<Link<K, V>>, root: nat, used: nat, cache: map<K, nat>, chain: seq<nat>,
                         c: Lru<K, V>, maxsize: int, key: K, result: V)
    requires Represents(s, root, used, cache, chain, c.order, c.store) && Inv(c, maxsize)
    requires |s| == maxsize + 1 && !c.full && key !in cache
    ensures Closed(s) && root < |s| && used < |s|
    ensures Insert(c, maxsize, key, result)
      == Lru(c.order + [key], c.store[key := result], c.hits, c.misses + 1, |cache[key := used]| >= maxsize)
  {
    assert cache[key := used].Keys == c.store[key := result].Keys;
  }

  /** A new link at slot `used` represents the cache after the spec's insertion on a cache
      that is not full. */
  lemma AppendStep<K, V>(s: seq<Link<K, V>>, root: nat, used: nat, cache: map<K, nat>, chain: seq<nat>,
                         c: Lru<K, V>, maxsize: int, key: K, result: V)
    requires Represents(s, root, used, cache, chain, c.order, c.store) && Inv(c, maxsize)
    requires used < |s| == maxsize + 1 && !c.full && key !in cache
    ensures var c' := Insert(c, maxsize, key, result);
      && Represents(Append(s, root, used, key, result), root, used + 1, cache[key := used],
                    chain + [used], c'.order, c'.store)
      && Inv(c', maxsize)
  {
    AppendLayout(s, root, used, chain, key, result);
    AppendHolds(s, root, used, chain, c.order, c.store, key, result);
    AppendIndexes(cache, used, chain, c.order, c.store, key, result);
    InsertNotFull(c, maxsize, key, result);
  }

  // ---------------------------------------------------------------------------------
  // The cache

  /** The state of `_lru_cache_wrapper` with a positive `maxsize`: the dictionary `cache`
      from keys to links, the links with the `root` sentinel, the counters and `full`. */
  class LruCache<K(==), V> {
    const maxsize: nat
    const links: array<Link<K, V>>
    var root: nat
    /** The slots below `used` hold the root and the links of the list. */
    var used: nat
    var cache: map<K, nat>
    var hits: nat
    var misses: nat
    var full: bool
    /** The cached keys from the least to the most recently used one. */
    ghost var order: seq<K>
    /** The slots of their links, in the same order. */
    ghost var chain: seq<nat>
    /** The result stored for each cached key. */
    ghost var store: map<K, V>

    /** The cache seen from outside. */
    ghost function View(): Lru<K, V>
      reads this
    {
      Lru(order, store, hits, misses, full)
    }

    ghost predicate Valid()
      reads this, links
    {
      && 0 < maxsize && links.Length == maxsize + 1
      && Represents(links[..], root, used, cache, chain, order, store)
      && Inv(View(), maxsize)
    }

    /** The invariant after a hit: the fields hold what moving the link at `ch[i]` to the
        end of the ring makes of the representation `s`, `r`, `u`, `m`, `ch` of `c`. */
    lemma HitValid(s: seq<Link<K, V>>, r: nat, u: nat, m: map<K, nat>, ch: seq<nat>, c: Lru<K, V>,
                   key: K, i: nat)
      requires 0 < maxsize && links.Length == maxsize + 1
      requires Represents(s, r, u, m, ch, c.order, c.store) && Inv(c, maxsize)
      requires i < |ch| && c.order[i] == key
      requires links[..] == MoveToBack(s, r, ch[i]) && root == r && used == u && cache == m
      requires chain == MoveToEnd(ch, i) && View() == LruSpec.Lookup(c, key).0
      ensures Valid()
    {
      HitStep(s, r, u, m, ch, c, maxsize, key, i);
    }

    /** The invariant after a miss on a full cache, from the representation before it. */
    lemma EvictValid(s: seq<Link<K, V>>, r: nat, u: nat, m: map<K, nat>, ch: seq<nat>, c: Lru<K, V>,
                     key: K, result: V)
      requires 0 < maxsize && links.Length == maxsize + 1
      requires Represents(s, r, u, m, ch, c.order, c.store) && Inv(c, maxsize)
      requires c.full && key !in m && ch != [] && c.order != []
      requires links[..] == Recycle(s, r, key, result) && root == ch[0] && used == u
      requires cache == (m - {c.order[0]})[key := r] && chain == ch[1..] + [r]
      requires View() == LruSpec.Insert(c, maxsize, key, result)
      ensures Valid()
    {
      RecycleStep(s, r, u, m, ch, c, maxsize, key, result);
    }

    /** The invariant after a miss on a cache that is not full, from the representation
        before it. */
    lemma AppendValid(s: seq<Link<K, V>>, r: nat, u: nat, m: map<K, nat>, ch: seq<nat>, c: Lru<K, V>,
                      key: K, result: V)
      requires 0 < maxsize && links.Length == maxsize + 1 && |s| == links.Length
      requires Represents(s, r, u, m, ch, c.order, c.store) && Inv(c, maxsize)
      requires !c.full && key !in m && u < |s|
      requires links[..] == Append(s, r, u, key, result) && root == r && used == u + 1
      requires cache == m[key := u] && chain == ch + [u]
      requires View() == LruSpec.Insert(c, maxsize, key, result)
      ensures Valid()
    {
      AppendStep(s, r, u, m, ch, c, maxsize, key, result);
    }

    /** The invariant after `cache_clear`, which left the root alone at slot 0 of `s`. */
    lemma ClearValid(s: seq<Link<K, V>>)
      requires 0 < maxsize && links.Length == maxsize + 1 && |s| == links.Length && Closed(s)
      requires links[..] == s[0 := Link(0, 0, None, None)] && root == 0 && used == 1
      requires cache == map[] && chain == [] && order == [] && store == map[] && !full
      ensures Valid()
    {
      ClearLayout(s);
    }

    /** A new cache: the root points to itself and nothing is cached. */
    constructor (maxsize: nat)
      requires 0 < maxsize
      ensures Valid() && View() == Cleared() && this.maxsize == maxsize
      ensures fresh(links)
    {
      this.maxsize := maxsize;
      links := new Link<K, V>[maxsize + 1](i => Link(0, 0, None, None));
      root, used, cache := 0, 1, map[];
      hits, misses, full := 0, 0, false;
      order, chain, store := [], [], map[];
    }

    /** The first locked region of a call: on a hit, unlink the key's link, put it between
        the last link and the root, and count the hit. */
    method Lookup(key: K) returns (r: Option<V>)
      requires Valid()
      modifies this, links
      ensures Valid()
      ensures View() == LruSpec.Lookup(old(View()), key).0
      ensures r == LruSpec.Lookup(old(View()), key).1
    {
      ghost var c0 := View();
      if key in cache {
        var link := cache[key];
        ghost var s, root0, used0, cache0, chain0 := links[..], root, used, cache, chain;
        ghost var i := HitLink(s, root, used, cache, chain, c0, maxsize, key);
        ghost var c1 := LruSpec.Lookup(c0, key).0;
        r := links[link].result;
        MoveLinkToBack(links, root, link);
        hits, order, chain := hits + 1, c1.order, MoveToEnd(chain, i);
        HitValid(s, root0, used0, cache0, chain0, c0, key, i);
      } else {
        r := None;
      }
    }

    /** The second locked region of a call, once the user function has returned `result`. */
    method Complete(key: K, result: V)
      requires Valid()
      modifies this, links
      ensures Valid()
      ensures View() == LruSpec.Insert(old(View()), maxsize, key, result)
    {
      if key in cache {
        // stored while the user function ran: nothing to do but count the miss
        misses := misses + 1;
      } else if full {
        Evict(key, result);
      } else {
        AddLink(key, result);
      }
    }

    /** A miss on a full cache: the old root takes the new entry, the least recently used
        link becomes the root, and its key leaves the dictionary. */
    method Evict(key: K, result: V)
      requires Valid() && key !in cache && full
      modifies this, links
      ensures Valid()
      ensures View() == LruSpec.Insert(old(View()), maxsize, key, result)
    {
      ghost var c0, s, used0, cache0, chain0 := View(), links[..], used, cache, chain;
      RecycleLink(s, root, used, cache, chain, c0, maxsize, key, result);
      ghost var c1 := LruSpec.Insert(c0, maxsize, key, result);
      var oldroot := root;
      var newroot, oldkey := RecycleRoot(links, oldroot, key, result);
      assert newroot == chain0[0] && oldkey.value == c0.order[0];
      root, cache, misses := newroot, (cache - {oldkey.value})[key := oldroot], misses + 1;
      order, chain, store := c1.order, chain[1..] + [oldroot], c1.store;
      EvictValid(s, oldroot, used0, cache0, chain0, c0, key, result);
    }

    /** A miss on a cache that is not full: a new link between the last link and the root,
        and `full` once there are `maxsize` entries. */
    method AddLink(key: K, result: V)
      requires Valid() && key !in cache && !full
      modifies this, links
      ensures Valid()
      ensures View() == LruSpec.Insert(old(View()), maxsize, key, result)
    {
      ghost var c0, s, cache0, chain0 := View(), links[..], cache, chain;
      AppendSlot(s, root, used, cache, chain, c0, maxsize, key, result);
      ghost var c1 := LruSpec.Insert(c0, maxsize, key, result);
      var link := used;
      AppendLink(links, root, link, key, result);
      cache, used, misses := cache[key := link], used + 1, misses + 1;
      full := |cache| >= maxsize;
      order, chain, store := c1.order, chain + [link], c1.store;
      AppendValid(s, root, link, cache0, chain0, c0, key, result);
    }

    /** A call in which the user function is `f`. */
    method Call(key: K, f: K -> V) returns (v: V)
      requires Valid()
      modifies this, links
      ensures Valid()
      ensures (View(), v) == LruSpec.Call(old(View()), maxsize, key, f)
    {
      var looked := Lookup(key);
      if looked.Some? {
        v := looked.value;
      } else {
        v := f(key);
        Complete(key, v);
      }
    }

    /** `cache_info`: the counters, `maxsize` and the number of entries. */
    method CacheInfo() returns (info: Common.CacheInfo)
      requires Valid()
      ensures info == Info(View(), maxsize)
      ensures info.currsize <= maxsize
    {
      info := Common.CacheInfo(hits, misses, Limit(maxsize), |cache|);
    }

    /** `cache_clear`: the root points to itself again, nothing is cached and the counters
        are zero. */
    method CacheClear()
      requires Valid()
      modifies this, links
      ensures Valid() && View() == Cleared()
    {
      ghost var s := links[..];
      ResetRoot(links);
      cache, root, used := map[], 0, 1;
      hits, misses, full := 0, 0, false;
      order, chain, store := [], [], map[];
      ClearValid(s);
    }
  }
}

/**
 * The unbounded mode of `_lru_cache_wrapper` (`maxsize=None`) as the source keeps it: a
 * dictionary from keys to results and the two counters, updated in place by each call.
 * Every method is proved to act on the cache as `MemoSpec` says.
 */
module UnboundedLru {
  import opened Common
  import opened MemoSpec

  /** The state the unbounded `wrapper` closes over. */
  class MemoCache<K(==), V> {
    var cache: map<K, V>
    var hits: nat
    var misses: nat

    /** The cache seen from outside. */
    ghost function View(): Memo<K, V>
      reads this
    {
      Memo(cache, hits, misses)
    }

    /** A new cache: nothing stored, nothing counted. */
    constructor ()
      ensures View() == MemoCleared()
    {
      cache, hits, misses := map[], 0, 0;
    }

    /** The lookup before the user function runs: a stored result is a hit and is
        returned; otherwise nothing changes and `None` plays the part of the sentinel. */
    method Lookup(key: K) returns (r: Option<V>)
      modifies this
      ensures (View(), r) == MemoLookup(old(View()), key)
    {
      r := if key in cache then Some(cache[key]) else None;
      if r.Some? {
        hits := hits + 1;
      }
    }

    /** After the user function has returned `result`: store it, over whatever another
        call may have stored meanwhile, and count the miss. */
    method Complete(key: K, result: V)
      modifies this
      ensures View() == MemoInsert(old(View()), key, result)
    {
      cache := cache[key := result];
      misses := misses + 1;
    }

    /** A call in which the user function is `f`. */
    method Call(key: K, f: K -> V) returns (v: V)
      modifies this
      ensures (View(), v) == MemoCall(old(View()), key, f)
    {
      var looked := Lookup(key);
      if looked.Some? {
        v := looked.value;
      } else {
        v := f(key);
        Complete(key, v);
      }
    }

    /** `cache_info`: the counters, no size limit and the number of entries. */
    method CacheInfo() returns (info: Common.CacheInfo)
      ensures info == MemoInfo(View())
      ensures info.hits == hits && info.misses == misses && info.currsize == |cache|
    {
      info := Common.CacheInfo(hits, misses, Unlimited, |cache|);
    }

    /** `cache_clear`: whatever the state, the cache is as new; clearing twice is
        clearing once. */
    method CacheClear()
      modifies this
      ensures View() == MemoCleared()
    {
      cache := map[];
      hits, misses := 0, 0;
    }
  }
}

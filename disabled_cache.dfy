/**
 * The disabled mode of `_lru_cache_wrapper` (`maxsize=0`): only the counters are kept; the
 * user function runs on every call and, once it has returned, the miss is counted.
 */
module DisabledLru {
  import opened Common
  import opened DisabledSpec

  /** The counters the disabled `wrapper` updates; `hits` stays zero. */
  class CountingCache {
    var hits: nat
    var misses: nat

    /** The counters seen from outside. */
    ghost function View(): Counts
      reads this
    {
      Counts(hits, misses)
    }

    /** A disabled cache never counts a hit. */
    ghost predicate Valid()
      reads this
    {
      hits == 0
    }

    constructor ()
      ensures Valid() && View() == Counts(0, 0)
    {
      hits, misses := 0, 0;
    }

    /** A call: run the user function `f` on the arguments, then count the miss. */
    method Call<A, V>(args: A, f: A -> V) returns (v: V)
      requires Valid()
      modifies this
      ensures Valid()
      ensures (View(), v) == DisabledCall(old(View()), args, f)
    {
      v := f(args);
      misses := misses + 1;
    }

    /** `cache_info`: the counters, `maxsize` 0 and no entries. */
    method CacheInfo() returns (info: Common.CacheInfo)
      requires Valid()
      ensures info == DisabledInfo(View())
      ensures info.hits == 0 && info.misses == misses
    {
      info := Common.CacheInfo(hits, misses, Limit(0), 0);
    }

    /** `cache_clear`: both counters back to zero. */
    method CacheClear()
      modifies this
      ensures Valid() && View() == Counts(0, 0)
    {
      hits, misses := 0, 0;
    }
  }
}

# functools.lru_cache (CPython 3.6) in Dafny

This project models the cache engine behind Python's `functools.lru_cache` decorator, as
CPython 3.6 writes it in `lru_cache_in_functools.py`, and proves what the engine promises.

- `lru_cache` checks its `maxsize` argument (`Config.CheckMaxsize`). `_lru_cache_wrapper`
  then picks one of three `wrapper`s (`Config.ModeAsWritten`, corrected as `Config.Configure`).
- **Disabled** (`maxsize == 0`, `DisabledLru.CountingCache`, specified by `DisabledSpec`).
  Nothing is stored. Each call runs the user function and then counts a miss.
- **Unbounded** (`maxsize is None`, `UnboundedLru.MemoCache`, specified by `MemoSpec`).
  A dictionary from keys to results. It only grows, and counts hits and misses.
- **Bounded** (a positive `maxsize`, `BoundedLru.LruCache`, specified by `LruSpec`).
  - The dictionary `cache` maps each key to a link of a circular doubly linked list.
  - A `root` link holds no entry.
  - Each link is the four-field record `[PREV, NEXT, KEY, RESULT]`.
  - The links live in an array, in the `Arena` module; a pointer to a link is its index.
  - A hit moves the link between the last link and the root.
  - A miss on a cache that is not full adds a link there.
  - A miss on a full cache stores the entry in the old root. The least recently used link
    becomes the new root, and its key leaves the dictionary.
  - The class keeps ghost state: the keys in recency order, the slots of their links, and the
    stored results. Each method is proved to act on that state as the value-level
    specification `LruSpec` says.
- `_make_key` (`MakeKey`) turns a call's positional and keyword arguments into a dictionary
  key.

A call is split at the point where the source releases its lock:

- `Lookup` is the first locked region.
- The user function runs outside the lock. Here it is the parameter `f`.
- `Complete` is the second locked region, and `Call` chains the two.

`Complete` handles the case where another call stored the key while the user function ran.
The lemmas about runs of calls (`Run`, `MemoRun`, `DisabledRun`) assume that calls do not
interleave.

Three behaviours of the code are easy to get wrong, and the model follows the code in each:

- The root's `NEXT` link is the **least** recently used entry and its `PREV` link the
  **most** recently used one (lines 167-170 and 183-192).
- With `typed` false, `f(3)` and `f(3.0)` get **different** keys. The lone `int` is returned
  bare, while the lone `float` is wrapped in a one-element sequence (lines 71-73,
  `MakeKey.UntypedIntAndFloat`), so the two calls use two cache entries.
- A negative integer `maxsize` passes the check of line 105 and selects the bounded mode,
  because only `maxsize == 0` disables the cache (line 130; see Findings).

## Model

| member | source | states |
|---|---|---|
| Config.CheckMaxsize | lru_cache_in_functools.py:105-106 | a `maxsize` is refused exactly when it is neither `None` nor an integer; `None` means no limit and an integer `n` the limit `n` |
| Config.ModeAsWritten | lru_cache_in_functools.py:130-154 | as written, only a `maxsize` of 0 gives the disabled mode and only `None` the unbounded one; every other integer, negative ones included, gives the bounded mode with that size |
| Config.NegativeMaxsizeOverfills | lru_cache_in_functools.py:130-154 | as written, a negative `maxsize` selects the bounded mode, and the first miss leaves one entry and `full` set, breaking the size bound |
| Config.Configure | lru_cache_in_functools.py:130-154 | `None` gives the unbounded mode; every integer not above 0 gives the disabled mode; a positive one gives the bounded mode with that size; it agrees with the source for every `maxsize` that is not negative |
| Config.Decorate | lru_cache_in_functools.py:105-111 | the decorator fails exactly on a non-integer, non-`None` `maxsize`, and otherwise yields the mode above |
| Config.ConfiguredBoundHolds | lru_cache_in_functools.py:154-211 | once a bounded mode is chosen, any run of calls from an empty cache keeps at most `maxsize` entries, is `full` exactly at `maxsize` entries, and counts each call once |
| MakeKey.KeyOf | lru_cache_in_functools.py:43-73 | the key is the lone argument exactly when `typed` is off, there is one positional argument, there are no keyword arguments, and its type is `int`, `str`, `frozenset` or `NoneType`; otherwise it is the wrapped flat sequence, whose length counts the arguments, the marker with the keyword pairs, and the types when `typed` |
| MakeKey.AppendPairs | lru_cache_in_functools.py:61-64 | the keyword loop appends each pair as its name followed by its value, in call order |
| MakeKey.Flatten | lru_cache_in_functools.py:60-69 | the flat sequence has one item per positional argument, the marker and two items per keyword argument when there are any, and, when `typed`, one type per argument |
| MakeKey.FlattenSteps | lru_cache_in_functools.py:60-69 | the flat key is the positional values, then the marker and pairs, then the positional types and the keyword types |
| MakeKey.MakeKey | lru_cache_in_functools.py:60-73 | the step-by-step construction builds exactly the key `KeyOf` describes |
| MakeKey.FlattenInjective | lru_cache_in_functools.py:60-69 | equal flat keys come from calls that are equal argument by argument (and type by type when `typed`) |
| MakeKey.KeyInjective | lru_cache_in_functools.py:43-73 | two calls sharing a key are equal argument by argument, keyword pairs in the same order, and type by type when `typed` |
| MakeKey.KeyRespectsEquality | lru_cache_in_functools.py:43-73 | calls equal argument by argument share a key, provided both or neither take the lone-argument shortcut |
| MakeKey.TypedSeparates | lru_cache_in_functools.py:66-69 | with `typed`, an argument of another type gives another key |
| MakeKey.UntypedIntAndFloat | lru_cache_in_functools.py:71-73 | without `typed`, a lone `int` is its own key while an equal lone `float` is wrapped |
| MakeKey.UntypedIgnoresTypes | lru_cache_in_functools.py:60-73 | without `typed`, equal arguments of different types share a wrapped key |
| Arena.MoveToBack | lru_cache_in_functools.py:164-170 | the hit's pointer writes, made in source order: the array keeps its length, and the moved link points forward to the root and keeps its key and result; every other pointer is stated by `Arena.MoveToBackPointers` and `Arena.MoveLastPointers` |
| Arena.Recycle | lru_cache_in_functools.py:183-195 | the writes of a miss on a full cache: no pointer changes; the root's successor is emptied; the root, when it is not its own successor, takes the new key and result; every other link stays |
| Arena.Append | lru_cache_in_functools.py:204-206 | the writes of a miss on a cache that is not full: the new slot holds the new key and result, the root points back to it and the old last link forward to it, all pointers stay in the array, and no other key or result changes |
| Arena.MoveLinkToBack | lru_cache_in_functools.py:164-170 | the hit's in-place writes leave the array as `MoveToBack` of the old array |
| Arena.MoveToBackRing | lru_cache_in_functools.py:164-170 | the hit's writes move the link at ring position `p` to the end of the ring, before the root, and keep every key and result |
| Arena.MoveMiddleRing | lru_cache_in_functools.py:164-170 | the same for a link that is not already the last one |
| Arena.MoveLastPointers | lru_cache_in_functools.py:164-170 | for the last link the hit's writes leave every pointer as it was |
| Arena.RecycleRoot | lru_cache_in_functools.py:183-195 | the recycling writes, in place: the returned new root is the old root's `NEXT`, the returned key is the one it held, and the array is `Recycle` of the old one |
| Arena.RecycleLinks | lru_cache_in_functools.py:183-195 | recycling changes no pointer, fills the old root with the new entry, empties its successor and leaves every other link alone |
| Arena.RotateRing | lru_cache_in_functools.py:192 | with the pointers unchanged, the ring read from the root's successor is again a ring: the least recently used link becomes the root and the old root the newest link |
| Arena.AppendLink | lru_cache_in_functools.py:204-206 | the new-link writes, in place: the array is `Append` of the old one |
| Arena.AppendPointers | lru_cache_in_functools.py:204-206 | after them the new link points back to the last link and forward to the root, and those two point to it; all else is unchanged |
| Arena.AppendRing | lru_cache_in_functools.py:204-206 | a link added at a free slot becomes the end of the ring, holding the new key and result |
| Arena.ResetRoot | lru_cache_in_functools.py:223 | slot 0 becomes a root pointing to itself with no entry; no other slot changes |
| LruSpec.Cleared | lru_cache_in_functools.py:121-128 | the state a new bounded cache starts in and `cache_clear` restores: no entries, zero counters, `full` unset, and the invariant holds for every positive `maxsize` |
| LruSpec.Lookup | lru_cache_in_functools.py:160-172 | the first locked region: a result is returned exactly when the key is stored, and it is the stored one; a hit counts one hit; the dictionary, `misses` and `full` never change, and a miss changes nothing |
| LruSpec.Insert | lru_cache_in_functools.py:174-210 | the second locked region: the key is stored afterwards, with the new result unless another call stored it meanwhile, in which case only the miss is counted; one miss, no hit; a full cache is never empty |
| LruSpec.Call | lru_cache_in_functools.py:156-211 | a whole call: the returned result is the one now cached for the key, it is the user function's result when the key was not cached, and exactly one hit or miss is counted |
| LruSpec.Run | lru_cache_in_functools.py:156-211 | calls one after another: the counters only grow, and a full cache is never empty |
| LruSpec.Info | lru_cache_in_functools.py:213-216 | the bounded `cache_info` reports the counters, `maxsize` and the number of entries |
| LruSpec.KeysAreOrder | lru_cache_in_functools.py:161-206 | in a well-formed cache the dictionary's keys are exactly the keys on the list |
| LruSpec.LookupHit | lru_cache_in_functools.py:161-172 | a hit returns the stored result and counts one hit; the key becomes the most recently used one, the others keep their order, and nothing is added or dropped; the invariant holds |
| LruSpec.InsertNotFull | lru_cache_in_functools.py:202-210 | a miss on a cache that is not full appends the key with its result, adds exactly one entry, counts one miss, and sets `full` exactly when the size reaches `maxsize`; the invariant holds |
| LruSpec.InsertFull | lru_cache_in_functools.py:181-201 | a miss on a full cache drops exactly the least recently used key, adds the new one as the most recently used, changes no other result, keeps the size at `maxsize`, stays `full` and counts one miss |
| LruSpec.InsertFullInv | lru_cache_in_functools.py:181-201 | the invariant survives the recycling |
| LruSpec.InsertPresent | lru_cache_in_functools.py:175-180 | if another call stored the key meanwhile, only the miss is counted |
| LruSpec.CallSpec | lru_cache_in_functools.py:156-211 | a call counts one hit exactly when the key was cached and one miss otherwise, keeps the invariant, and returns what the user function gives |
| LruSpec.RunSpec | lru_cache_in_functools.py:156-211 | over any run of calls `hits + misses` grows by the number of calls, the invariant always holds, and only results of the user function are stored |
| LruSpec.RunSnoc | lru_cache_in_functools.py:156-211 | a run of calls followed by one more call is the longer run |
| LruSpec.CallKeepsWellFormed | lru_cache_in_functools.py:156-211 | whatever `maxsize` is, every call keeps the list and the dictionary in bijection |
| LruSpec.FillStep | lru_cache_in_functools.py:181-210 | a miss with a new key on a cache holding the newest `maxsize` keys of a history holds the newest `maxsize` of the history extended by that key |
| LruSpec.FillFromEmpty | lru_cache_in_functools.py:156-211 | after calls with distinct keys on an empty cache, it holds the newest `maxsize` of them, oldest first |
| LruSpec.BoundedEviction | lru_cache_in_functools.py:181-201 | after `maxsize + 1` distinct keys, `cache_info` reports `maxsize` entries, the first key is gone and every later one is cached |
| LruSpec.EvictStep | lru_cache_in_functools.py:181-201 | on a full cache of two, a miss evicts the older key |
| LruSpec.PromoteStep | lru_cache_in_functools.py:161-172 | on a cache of two, a hit on the older key makes it the newer one |
| LruSpec.RepeatFirst | lru_cache_in_functools.py:161-172 | with room for two, after `k1, k2, k1` the cache is full and `k2` is the least recently used key |
| LruSpec.RecencyPromotion | lru_cache_in_functools.py:156-211 | with room for two, after `k1, k2, k1`, a call with `k3` evicts `k2` and keeps `k1` and `k3` |
| MemoSpec.MemoCleared | lru_cache_in_functools.py:121-122 | the state a new unbounded cache starts in and `cache_clear` restores: no entries and zero counters |
| MemoSpec.MemoLookup | lru_cache_in_functools.py:144-148 | a result is returned exactly when the key is stored, and it is the stored one; a hit counts one hit; the dictionary and `misses` never change |
| MemoSpec.MemoInsert | lru_cache_in_functools.py:149-151 | after a miss the key is stored with the new result, no other key is added, removed or changed, and one miss is counted |
| MemoSpec.MemoCall | lru_cache_in_functools.py:141-152 | a whole call: the returned result is the one now cached for the key, it is the user function's result when the key was not cached, no key is removed, and exactly one hit or miss is counted |
| MemoSpec.MemoRun | lru_cache_in_functools.py:139-152 | unbounded calls one after another: the counters only grow and no key is ever removed |
| MemoSpec.MemoInfo | lru_cache_in_functools.py:213-216 | the unbounded `cache_info` reports the counters, no size limit and the number of entries |
| MemoSpec.MemoCallSpec | lru_cache_in_functools.py:144-151 | an unbounded call is a hit exactly when the key is stored; a hit changes only the hit count; a miss stores the result and counts the miss; no key is ever removed |
| MemoSpec.MemoCallResult | lru_cache_in_functools.py:144-152 | a cache holding only results of the user function answers with what the function gives, and keeps holding only such results |
| MemoSpec.MemoRunKeys | lru_cache_in_functools.py:144-151 | over a run of calls, the stored keys are the old ones plus the keys called |
| MemoSpec.MemoRunTotal | lru_cache_in_functools.py:147-151 | over a run of calls, `hits + misses` grows by the number of calls |
| MemoSpec.MemoRunMisses | lru_cache_in_functools.py:149-151 | over a run of calls, each miss adds one entry and no hit does |
| MemoSpec.MemoRunHolds | lru_cache_in_functools.py:144-152 | over a run of calls, only results of the user function are stored |
| MemoSpec.MemoFromCleared | lru_cache_in_functools.py:139-152 | from an empty cache, the entries are exactly the distinct keys called, each counted as a miss once; every other call is a hit |
| DisabledSpec.DisabledCall | lru_cache_in_functools.py:132-137 | a disabled call returns the user function's result, counts one miss and no hit |
| DisabledSpec.DisabledRun | lru_cache_in_functools.py:130-137 | disabled calls one after another: `hits` never changes and `misses` only grows |
| DisabledSpec.DisabledInfo | lru_cache_in_functools.py:213-216 | the disabled `cache_info` reports the counters, `maxsize` 0 and no entries |
| DisabledSpec.DisabledRunSpec | lru_cache_in_functools.py:130-137 | with caching disabled, every call counts one miss and never a hit |
| BoundedLru.FindLink | lru_cache_in_functools.py:161 | the dictionary maps a cached key to the slot of the link at its position in the recency order |
| BoundedLru.ClearLayout | lru_cache_in_functools.py:222-223 | an empty dictionary and a root alone at slot 0 represent the empty cache |
| BoundedLru.HitLayout | lru_cache_in_functools.py:164-170 | after a hit, the root and the links still form a ring over distinct slots, the hit link now last |
| BoundedLru.HitHolds | lru_cache_in_functools.py:164-170 | after a hit, every link still holds its key and result, in the new order |
| BoundedLru.HitIndexes | lru_cache_in_functools.py:164-170 | after a hit, the dictionary still maps each key to its link |
| BoundedLru.HitLink | lru_cache_in_functools.py:161-164 | on a hit, the link found holds the stored result, and the value-level lookup moves that key to the end |
| BoundedLru.HitStep | lru_cache_in_functools.py:161-172 | the hit's link writes represent the cache after the value-level lookup, and the invariant holds |
| BoundedLru.RecycleLayout | lru_cache_in_functools.py:183-195 | after recycling, the old root's successor is the root of a ring whose last link is the old root |
| BoundedLru.RecycleHolds | lru_cache_in_functools.py:183-195 | after recycling, the links hold the keys after the oldest one, then the new key with its result |
| BoundedLru.RecycleIndexes | lru_cache_in_functools.py:197-201 | deleting the oldest key and mapping the new key to the old root keeps the dictionary in step with the list |
| BoundedLru.RecycleLink | lru_cache_in_functools.py:183-193 | on a full cache, the root's successor is a link other than the root and holds the least recently used key; the value-level insertion drops that key |
| BoundedLru.RecycleStep | lru_cache_in_functools.py:181-201 | recycling the root represents the cache after the value-level insertion, and the invariant holds |
| BoundedLru.AppendLayout | lru_cache_in_functools.py:204-206 | a link at the first free slot extends the ring at its end |
| BoundedLru.AppendHolds | lru_cache_in_functools.py:204-206 | the new link holds the new key and result; the others are unchanged |
| BoundedLru.AppendIndexes | lru_cache_in_functools.py:206 | mapping the new key to the new link keeps the dictionary in step with the list |
| BoundedLru.AppendSlot | lru_cache_in_functools.py:202-209 | on a cache that is not full, a free slot remains, and `full` is set exactly when the dictionary reaches `maxsize` |
| BoundedLru.AppendStep | lru_cache_in_functools.py:202-209 | the new link represents the cache after the value-level insertion, and the invariant holds |
| BoundedLru.LruCache.HitValid | lru_cache_in_functools.py:161-172 | the fields after a hit satisfy the class invariant |
| BoundedLru.LruCache.EvictValid | lru_cache_in_functools.py:181-201 | the fields after a miss on a full cache satisfy the class invariant |
| BoundedLru.LruCache.AppendValid | lru_cache_in_functools.py:202-209 | the fields after a miss on a cache that is not full satisfy the class invariant |
| BoundedLru.LruCache.ClearValid | lru_cache_in_functools.py:221-225 | the fields after `cache_clear` satisfy the class invariant |
| BoundedLru.LruCache.constructor | lru_cache_in_functools.py:121-128 | a new bounded cache is empty, with a root pointing to itself and zero counters |
| BoundedLru.LruCache.Lookup | lru_cache_in_functools.py:160-172 | the first locked region acts as the value-level lookup: it returns the result on a hit, promotes the key and counts the hit, and changes nothing on a miss |
| BoundedLru.LruCache.Complete | lru_cache_in_functools.py:174-210 | the second locked region acts as the value-level insertion in all three cases |
| BoundedLru.LruCache.Evict | lru_cache_in_functools.py:181-201 | a miss on a full cache recycles the root, in place, as the value-level insertion says |
| BoundedLru.LruCache.AddLink | lru_cache_in_functools.py:202-209 | a miss on a cache that is not full adds a link, in place, and updates `full`, as the value-level insertion says |
| BoundedLru.LruCache.Call | lru_cache_in_functools.py:156-211 | a whole bounded call acts as `LruSpec.Call` and keeps the invariant |
| BoundedLru.LruCache.CacheInfo | lru_cache_in_functools.py:213-216 | `cache_info` reports `(hits, misses, maxsize, len(cache))`, and the size is at most `maxsize` |
| BoundedLru.LruCache.CacheClear | lru_cache_in_functools.py:218-225 | from any state, `cache_clear` leaves the empty cache with zero counters and `full` unset; clearing twice is clearing once |
| UnboundedLru.MemoCache.constructor | lru_cache_in_functools.py:121-122 | a new unbounded cache is empty with zero counters |
| UnboundedLru.MemoCache.Lookup | lru_cache_in_functools.py:144-148 | the lookup acts as `MemoLookup`: a stored result is returned and counted as a hit |
| UnboundedLru.MemoCache.Complete | lru_cache_in_functools.py:149-151 | after the user function, the result is stored and the miss counted |
| UnboundedLru.MemoCache.Call | lru_cache_in_functools.py:141-152 | a whole unbounded call acts as `MemoCall` |
| UnboundedLru.MemoCache.CacheInfo | lru_cache_in_functools.py:213-216 | `cache_info` reports the counters, `None` as `maxsize` and the number of entries |
| UnboundedLru.MemoCache.CacheClear | lru_cache_in_functools.py:218-225 | from any state, `cache_clear` leaves the empty cache with zero counters |
| DisabledLru.CountingCache.constructor | lru_cache_in_functools.py:122 | new counters are zero |
| DisabledLru.CountingCache.Call | lru_cache_in_functools.py:132-137 | a disabled call returns what the user function gives and counts one miss, never a hit |
| DisabledLru.CountingCache.CacheInfo | lru_cache_in_functools.py:213-216 | `cache_info` reports zero hits, the misses, `maxsize` 0 and no entries |
| DisabledLru.CountingCache.CacheClear | lru_cache_in_functools.py:218-225 | `cache_clear` sets both counters to zero |

## Left out

- The lock (`RLock`) and threads are not modelled. The two locked regions of a call are
  separate methods. The model does not cover another thread running between them, beyond
  the "key stored meanwhile" case of `Complete`.
- `Config.Decorate`: the defaults of `lru_cache` (`maxsize=128`, `typed=False`, line 77) are
  not modelled; the decorator always receives an explicit `maxsize`, and `typed` is a
  parameter of `MakeKey.KeyOf`.
- The decorator plumbing is not modelled: `decorating_function`, `update_wrapper`,
  `__wrapped__`, and attaching `cache_info`/`cache_clear` to the wrapper.
- The user function is a parameter `f`. In the bounded and unbounded modes it is applied to
  the key, not to the original arguments. This assumes that the user function is
  deterministic and gives equal results for calls that share a key. `MakeKey.KeyInjective`
  shows that such calls have `==`-equal arguments, of equal types when `typed`; with `typed`
  false, `f(1.0)` and `f(True)` share a key, and a function telling them apart is outside
  the model. The claims that a call returns what the user function gives and that only its
  results are stored (`LruSpec.CallSpec`, `LruSpec.RunSpec`, `MemoSpec.MemoCallResult`,
  `MemoSpec.MemoRunHolds`) rest on this assumption. Exceptions raised by the user function
  are not modelled; such a call counts nothing in the source.
- A user function that calls the cache again (reentrancy) is not modelled.
- `_HashedSeq` and hashing are not modelled. A key is compared as a value: two keys are the
  same dictionary key when they are equal. Python's `hash`/`__eq__` on user objects, the
  cached `hashvalue`, and the `sentinel` object are not modelled. `None`, in an `Option`,
  plays the part of the sentinel and of "no link".
- The private keyword marker `kwd_mark` is the item `KwdMark`. The model assumes it never
  equals an argument, as an `object()` created inside the function cannot.
- Keyword arguments keep their call order, as a Python 3.6 dictionary does.
- A Python type is a `TypeTag`. `bool` is not a fast type, because the source compares the
  exact type. It is `Other("bool")`.
- Bounded mode keeps links in slots of an array of `maxsize + 1` links, not in separately
  allocated lists. A pointer is an index. Reference counts, `oldresult`, and the reason the
  source keeps them alive (a `__del__` running mid-update) are not modelled.
- `BoundedLru.LruCache.CacheClear`: Python resets the current root object in place, and the
  other links become garbage. The model re-anchors the root at slot 0 with every other slot
  free. This equals the source as far as keys, results, order and counters go, but not link
  identity.
- `UnboundedLru.MemoCache.CacheClear` and `DisabledLru.CountingCache.CacheClear` do not model
  the root reset, because those modes never use the list.
- `Config.CheckMaxsize`: a `bool` passes as an integer, as in Python. Any non-integer,
  non-`None` value is one case, `OtherArg`.
- `_CacheInfo` is the datatype `Common.CacheInfo`, not a named tuple. `maxsize` is `Unlimited`
  for `None`, and `Limit(n)` otherwise.
- The `typed` flag and `_make_key` are modelled on their own. The cache classes take the
  key, not the arguments.

## Findings

| source | as written | input that shows it | evidently intended | confidence | as-written member | corrected member |
|---|---|---|---|---|---|---|
| lru_cache_in_functools.py:130-154 | only `maxsize == 0` selects the disabled mode, so a negative integer selects the bounded mode; its first miss sets `full` (`1 >= maxsize`) and the cache keeps one entry from then on | `maxsize = -1`, one call with any key: one entry is stored although `maxsize` is -1 | a `maxsize` not above 0 caches nothing, like 0, so the size never exceeds `maxsize` | medium, not executed | Config.NegativeMaxsizeOverfills | Config.Configure |

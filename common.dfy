/** Small datatypes shared by every mode of the cache. */
module Common {

  /** Python's `None` or a value. */
  datatype Option<T> = None | Some(value: T)

  /** A result or a raised exception. */
  datatype Result<T, E> = Success(value: T) | Failure(error: E)

  /** The `maxsize` a cache reports: `None` for unbounded, otherwise the integer given. */
  datatype Maxsize = Unlimited | Limit(n: int)

  /** The named tuple `CacheInfo(hits, misses, maxsize, currsize)`. */
  datatype CacheInfo = CacheInfo(hits: nat, misses: nat, maxsize: Maxsize, currsize: nat)
}

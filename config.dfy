/**
 * How `lru_cache` checks its `maxsize` argument and how `_lru_cache_wrapper` picks one of
 * its three modes from it, as written and corrected for a negative `maxsize`.
 */
module Config {
  import opened Common
  import opened LruSpec

  /** What the decorator receives as `maxsize`: `None`, an integer (a `bool` is one too),
      or anything else, such as the decorated function itself when `@lru_cache` is
      written without parentheses. */
  datatype MaxsizeArg = NoneArg | IntArg(n: int) | OtherArg

  /** The error `lru_cache` raises for a `maxsize` that is neither `None` nor an integer. */
  datatype ConfigError = TypeError(message: string)

  /** The three `wrapper`s of `_lru_cache_wrapper`. */
  datatype Mode = Disabled | Unbounded | Bounded(maxsize: int)

  /** The check at the top of `lru_cache`: `None` and every integer pass, anything else is
      refused before any cache is built. */
  function CheckMaxsize(arg: MaxsizeArg): (r: Result<Maxsize, ConfigError>)
    ensures r.Failure? <==> arg.OtherArg?
    ensures r.Success? ==> (r.value == Unlimited <==> arg.NoneArg?)
    ensures arg.IntArg? ==> r == Success(Limit(arg.n))
  {
    match arg
    case NoneArg => Success(Unlimited)
    case IntArg(n) => Success(Limit(n))
    case OtherArg => Failure(TypeError("Expected maxsize to be an integer or None"))
  }

  /** The mode `_lru_cache_wrapper` picks, as written: only `maxsize == 0` disables the
      cache, so a negative `maxsize` selects the bounded `wrapper`. */
  function ModeAsWritten(m: Maxsize): (r: Mode)
    ensures r == Disabled <==> m == Limit(0)
    ensures r == Unbounded <==> m == Unlimited
    ensures r.Bounded? ==> m == Limit(r.maxsize) && r.maxsize != 0
  {
    if m == Limit(0) then Disabled
    else if m == Unlimited then Unbounded
    else Bounded(m.n)
  }

  /** As written, a negative `maxsize` gives a bounded cache whose first miss already
      stores one entry, more than `maxsize`, and sets `full`: the cache then keeps one
      entry where the size bound promises at most `maxsize`. */
  lemma NegativeMaxsizeOverfills<K, V>(n: int, key: K, result: V)
    requires n < 0
    ensures ModeAsWritten(Limit(n)) == Bounded(n)
    ensures var c := Insert(Cleared(), n, key, result);
      && c.store == map[key := result] && c.full
      && |c.store| > n && !Inv(c, n)
  {
    var c := Insert(Cleared(), n, key, result);
    assert c.store == map[key := result];
  }

  /** The mode picked when every `maxsize` not above zero disables the cache, as the size
      bound requires. */
  function Configure(m: Maxsize): (r: Mode)
    ensures r == Unbounded <==> m == Unlimited
    ensures r == Disabled <==> m.Limit? && m.n <= 0
    ensures r.Bounded? ==> r.maxsize > 0 && m == Limit(r.maxsize)
    ensures !(m.Limit? && m.n < 0) ==> r == ModeAsWritten(m)
  {
    if m.Limit? && m.n <= 0 then Disabled
    else if m == Unlimited then Unbounded
    else Bounded(m.n)
  }

  /** The whole decorator set-up: the check, then the mode. */
  function Decorate(arg: MaxsizeArg): (r: Result<Mode, ConfigError>)
    ensures r.Failure? <==> arg.OtherArg?
    ensures arg.NoneArg? ==> r == Success(Unbounded)
    ensures arg.IntArg? && arg.n <= 0 ==> r == Success(Disabled)
    ensures arg.IntArg? && arg.n > 0 ==> r == Success(Bounded(arg.n))
  {
    var checked := CheckMaxsize(arg);
    if checked.Failure? then Failure(checked.error) else Success(Configure(checked.value))
  }

  /** With the corrected choice, a bounded cache starts out satisfying its invariant, so
      over any run of calls it never holds more than `maxsize` entries, is `full` exactly
      when it holds `maxsize`, and counts every call once. */
  lemma ConfiguredBoundHolds<K, V>(m: Maxsize, keys: seq<K>, f: K -> V)
    requires Configure(m).Bounded?
    ensures var n := Configure(m).maxsize;
      var c := Run(Cleared(), n, keys, f);
      && |c.store| <= n
      && (c.full <==> |c.store| == n)
      && c.hits + c.misses == |keys|
  {
    var n := Configure(m).maxsize;
    var c0: Lru<K, V> := Cleared();
    assert Inv(c0, n);
    RunSpec(c0, n, keys, f);
  }
}

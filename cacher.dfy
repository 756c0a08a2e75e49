/**
 * The strategy registry of Cacher.java: a process-wide map from a strategy's
 * class to the maker that builds an instance of it from a capacity and a
 * lookup function. The interface's static `register` and `New` only forward to
 * the factory's `register` and `make`.
 */
module Cacher {
  import opened LruCache

  /** The factory's answer to `make`; `None` is Java's `null`. */
  datatype Option<T> = None | Some(value: T)

  /** A class object naming a strategy: the built-in LRU, or a caller's own class. */
  datatype StrategyId = LRUClass | UserClass(name: string)

  /** A constructor reference: capacity and lookup to a new instance, or the exception it throws. */
  type Maker<!E> = (int, Lookup<E>) -> Result<Instance<E>>

  /** The registry as the static initializer leaves it: only `LRU::new` under `LRU.class`. */
  function InitialRegistry<E>(): (reg: map<StrategyId, Maker<E>>)
    ensures reg.Keys == {LRUClass}
  {
    map[LRUClass := New]
  }

  /** The process-wide registry; one object stands for the static state. */
  class CacheFactory<E> {
    var registry: map<StrategyId, Maker<E>>

    /** The static initializer, which registers the built-in LRU strategy. */
    constructor()
      ensures registry == InitialRegistry()
    {
      registry := InitialRegistry<E>();
    }

    /**
     * register: last write wins. Afterwards `make` of `c` applies `m`, and
     * `make` of every other identifier is what it was.
     */
    method Register(c: StrategyId, m: Maker<E>)
      modifies this
      ensures registry == old(registry)[c := m]
      ensures forall n, f :: Make(c, n, f) == Some(m(n, f))
      ensures forall c', n, f :: c' != c ==> Make(c', n, f) == old(Make(c', n, f))
    {
      registry := registry[c := m];
    }

    /**
     * make: applies the maker registered under `c`, or answers `None` when
     * nothing is registered there. It only reads the registry.
     */
    function Make(c: StrategyId, n: int, f: Lookup<E>): (r: Option<Result<Instance<E>>>)
      reads this
      ensures r.None? <==> c !in registry
      ensures r.Some? ==> r.value == registry[c](n, f)
    {
      if c in registry then Some(registry[c](n, f)) else None
    }
  }

  /**
   * After static initialisation, `make(LRU.class, n, f)` builds an empty LRU
   * with capacity `n` and lookup `f` when `n >= 1`, and reports the
   * constructor's exception otherwise; no other identifier is registered.
   */
  lemma InitialMakesLRU<E>(fac: CacheFactory<E>, c: StrategyId, n: int, f: Lookup<E>)
    requires fac.registry == InitialRegistry()
    ensures c != LRUClass ==> fac.Make(c, n, f) == None
    ensures n >= 1 ==> && fac.Make(LRUClass, n, f).Some?
                       && fac.Make(LRUClass, n, f).value.Ok?
                       && var inst := fac.Make(LRUClass, n, f).value.value;
                       && inst.cacheSize == n && inst.lookup == f && inst.entries.order == []
                       && inst.entries.vals == map[]
    ensures n < 1 ==> fac.Make(LRUClass, n, f) == Some(New(n, f)) && New(n, f).Fail?
  {
  }

  /**
   * `New(LRU.class, n, f)` while `LRU.class` maps to `LRU::new`: a fresh LRU
   * object, empty, with capacity `n`, whose state is exactly what the
   * registered maker builds.
   */
  method NewLRU<E>(fac: CacheFactory<E>, n: int, f: Lookup<E>) returns (cache: LRU<E>)
    requires LRUClass in fac.registry && fac.registry[LRUClass] == New && n >= 1
    ensures fresh(cache) && cache.Valid()
    ensures fac.Make(LRUClass, n, f) == Some(Ok(cache.View()))
    ensures cache.Size() == 0 && cache.Capacity() == n
  {
    cache := new LRU(n, f);
  }
}

/**
 * gov.nasa.worldwind.cache.BasicMemoryCacheSet: memory caches registered
 * under string keys, put-if-absent.
 */
module MemoryCaches {
  import opened JavaLang

  /** A memory cache, seen only through its entries and clear(). */
  class MemoryCache {
    var entries: map<string, nat>

    constructor ()
      ensures entries == map[]
    {
      entries := map[];
    }

    method Clear()
      modifies this
      ensures entries == map[]
    {
      entries := map[];
    }
  }

  class BasicMemoryCacheSet {
    var caches: map<string, MemoryCache>

    constructor ()
      ensures caches == map[]
    {
      caches := map[];
    }

    /** The cache registered under key, or null; a null key is rejected. */
    method Get(key: Option<string>) returns (r: Outcome<MemoryCache?>)
      ensures key.None? ==> r.Throw? && r.exception == IllegalArgument
      ensures key.Some? ==> r.Return? && (r.value != null <==> key.value in caches)
      ensures key.Some? && key.value in caches ==> r.value == caches[key.value]
    {
      if key.None? {
        return Throw(IllegalArgument);
      }
      return Return(if key.value in caches then caches[key.value] else null);
    }

    /**
     * Registers cache under key unless a cache is already registered there,
     * and returns the cache that was there (null if none). Null arguments are
     * rejected without a change.
     */
    method Put(key: Option<string>, cache: MemoryCache?) returns (r: Outcome<MemoryCache?>)
      modifies this
      ensures key.None? || cache == null ==> r.Throw? && r.exception == IllegalArgument && caches == old(caches)
      ensures key.Some? && cache != null && key.value !in old(caches) ==>
                r.Return? && r.value == null && caches == old(caches)[key.value := cache]
      ensures key.Some? && cache != null && key.value in old(caches) ==>
                r.Return? && r.value == old(caches)[key.value] && caches == old(caches)
    {
      if key.None? {
        return Throw(IllegalArgument);
      }
      if cache == null {
        return Throw(IllegalArgument);
      }
      if key.value in caches {
        return Return(caches[key.value]);
      }
      caches := caches[key.value := cache];
      return Return(null);
    }

    method Contains(key: Option<string>) returns (r: Outcome<bool>)
      ensures key.None? ==> r.Throw? && r.exception == IllegalArgument
      ensures key.Some? ==> r.Return? && (r.value <==> key.value in caches)
    {
      if key.None? {
        return Throw(IllegalArgument);
      }
      return Return(key.value in caches);
    }

    /** Clears every registered cache, then forgets them all. */
    method Clear()
      modifies this, caches.Values
      ensures caches == map[]
      ensures forall c :: c in old(caches.Values) ==> c.entries == map[]
    {
      var keys := caches.Keys;
      while keys != {}
        invariant keys <= caches.Keys && caches == old(caches)
        invariant forall k :: k in caches.Keys - keys ==> caches[k].entries == map[]
        decreases keys
      {
        var k :| k in keys;
        caches[k].Clear();
        keys := keys - {k};
      }
      caches := map[];
    }
  }
}

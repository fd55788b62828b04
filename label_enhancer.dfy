/// The memoising label rewrite: the translation table together with the
/// process-wide cache of every label already resolved.
module Enhancer {
  import opened NetStrings
  import opened Translation

  class LabelEnhancer {
    /// The translation table; never changes.
    const table: map<string, string>
    /// Every non-empty label seen so far, mapped to what it was rewritten to
    /// (itself when it is not a node name of the table).
    var cache: map<string, string>

    /// The cache only ever holds what the uncached rewrite computes, and never
    /// the empty string.
    ghost predicate Valid()
      reads this
    {
      forall k :: k in cache ==> k != "" && cache[k] == Enhance(table, k)
    }

    /// An enhancer over the shipped table with an empty cache.
    constructor ()
      ensures table == ResoniteToNeosMap
      ensures cache == map[]
      ensures Valid()
    {
      table := ResoniteToNeosMap;
      cache := map[];
    }

    /// Null and empty labels pass through and leave the cache alone. A cached
    /// label returns its cached value. Otherwise a node name of the table
    /// becomes `symbol(name)` and any other label stays as it is; either way
    /// the result is stored under the label. The result never depends on the
    /// cache, and the only change of state is the entry for this label.
    method GetEnhancedTextContent(original: NullableString) returns (r: NullableString)
      requires Valid()
      modifies this
      ensures Valid()
      ensures r == EnhanceText(table, original)
      ensures IsNullOrEmpty(original) ==> r == original && cache == old(cache)
      ensures original.Str? && original.s in old(cache) ==>
                r == Str(old(cache)[original.s]) && cache == old(cache)
      ensures !IsNullOrEmpty(original) ==>
                r.Str? && cache == old(cache)[original.s := r.s]
      ensures forall k :: k in old(cache) ==> k in cache && cache[k] == old(cache)[k]
    {
      if IsNullOrEmpty(original) {
        return original;
      }
      var name := original.s;
      if name in cache {
        return Str(cache[name]);
      }
      if name in table {
        var enhanced := table[name] + "(" + name + ")";
        cache := cache[name := enhanced];
        return Str(enhanced);
      }
      cache := cache[name := name];
      return original;
    }
  }
}

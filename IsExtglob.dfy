/**
 The detector of index.js: the escape-aware scanning loops and the
 process-wide result cache. The module-level `cache` object and `cacheSize`
 counter become the fields of a `Detector` object; one object stands for
 one loaded copy of the module.
 */
module IsExtglob {
  import opened ExtglobSpec

  /** The cache stops growing once it holds this many entries. */
  const MaxCacheSize: nat := 100

  /** The fast-reject pre-check: one pass that stops at the first prefix
      character. */
  method HasPotentialExtglob(s: string) returns (found: bool)
    ensures found <==> HasPrefixChar(s)
  {
    found := false;
    var i := 0;
    while i < |s|
      invariant 0 <= i <= |s|
      invariant forall k :: 0 <= k < i ==> !IsPrefixChar(s[k])
    {
      if IsPrefixChar(s[i]) {
        found := true;
        break;
      }
      i := i + 1;
    }
  }

  /** The inner search for a `)` from index `from` to the end. */
  method FindClosingParen(s: string, from: nat) returns (found: bool)
    ensures found <==> HasCloseAfter(s, from)
  {
    found := false;
    var j := from;
    while j < |s|
      invariant from <= j
      invariant forall k :: from <= k < j && k < |s| ==> s[k] != ')'
    {
      if s[j] == ')' {
        found := true;
        break;
      }
      j := j + 1;
    }
  }

  /** The main scan: a cursor that moves by two over a backslash and its
      escaped character and by one otherwise, stopping at the first visited
      prefix character followed by `(` and, somewhere later, `)`. It gives
      the full answer on its own, with or without the pre-check. */
  method MainScan(s: string) returns (result: bool)
    ensures result == ContainsExtglob(s)
  {
    result := false;
    var i: nat := 0;
    while i < |s|
      invariant i <= |s| + 1
      invariant Reachable(s, i)
      invariant forall p: nat :: p < i && Reachable(s, p) ==> !Triggers(s, p)
      invariant !result
      decreases |s| - i
    {
      if s[i] == '\\' {
        EscapedNotReached(s, i);
        i := i + 2;
        continue;
      }
      if IsPrefixChar(s[i]) && i + 1 < |s| && s[i + 1] == '(' {
        var hasClosingParen := FindClosingParen(s, i + 2);
        if hasClosingParen {
          result := true;
          break;
        }
      }
      i := i + 1;
    }
  }

  class Detector {
    /** Answers already computed, by input string. */
    var cache: map<string, bool>
    /** The number of stored entries. */
    var cacheSize: nat

    /** The cache is bounded, counted, never holds the empty string (which
        returns before the lookup), and every stored answer is the one a
        fresh scan would give. */
    ghost predicate Valid()
      reads this
    {
      && cacheSize == |cache|
      && cacheSize <= MaxCacheSize
      && "" !in cache
      && forall key :: key in cache ==> cache[key] == ContainsExtglob(key)
    }

    /** The cache starts empty. */
    constructor ()
      ensures Valid()
      ensures cache == map[] && cacheSize == 0
    {
      cache := map[];
      cacheSize := 0;
    }

    /** `isExtglob(str)`: the empty string gives false at once; a cached
        string gives its stored answer; otherwise the pre-check and the main
        scan compute the answer, which is stored while there is room. Stored
        entries are never overwritten or evicted. */
    method IsExtglob(str: string) returns (result: bool)
      requires Valid()
      modifies this
      ensures Valid()
      ensures result == ContainsExtglob(str)
      ensures cache == if str == "" || str in old(cache) || old(cacheSize) >= MaxCacheSize
                       then old(cache)
                       else old(cache)[str := result]
    {
      if str == "" {
        return false;
      }
      if str in cache {
        return cache[str];
      }
      var hasPotentialExtglob := HasPotentialExtglob(str);
      if !hasPotentialExtglob {
        NoPrefixCharNoExtglob(str);
        result := false;
      } else {
        result := MainScan(str);
      }
      if cacheSize < MaxCacheSize {
        assert cache[str := result].Keys == cache.Keys + {str};
        cache := cache[str := result];
        cacheSize := cacheSize + 1;
      }
    }
  }

  /** Asking twice gives the same answer, and the second call leaves the
      cache as the first call left it: the string is stored at most once, and
      once stored it is served from the cache. */
  method RepeatedCallsAgree(d: Detector, str: string) returns (first: bool, second: bool)
    requires d.Valid()
    modifies d
    ensures d.Valid()
    ensures first == second == ContainsExtglob(str)
    ensures d.cache == if str == "" || str in old(d.cache) || old(d.cacheSize) >= MaxCacheSize
                       then old(d.cache)
                       else old(d.cache)[str := first]
    ensures str != "" && old(d.cacheSize) < MaxCacheSize ==> str in d.cache
  {
    first := d.IsExtglob(str);
    second := d.IsExtglob(str);
  }
}

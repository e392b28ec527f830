/**
  The Redis cache as the index engine uses it: a map from key text to stored
  JSON text with a time-to-live, accessed best-effort (every backend failure
  degrades to a miss or a no-op), and the three key generators whose
  namespaces the invalidation policy relies on.
*/
module Cache {
  import opened Wrappers

  /** What the backend holds under a key: a JSON document, or text `json.loads` rejects (the empty string included). */
  datatype Stored<V> = Json(value: V) | Unreadable

  datatype Entry<V> = Entry(text: Stored<V>, ttl: int)

  /** The cache: its entries, the configured default TTL, and whether the backend answers. */
  datatype RedisCache<V> = RedisCache(entries: map<string, Entry<V>>, defaultTtl: int, available: bool)

  predicate HasPrefix(s: string, prefix: string)
  {
    |prefix| <= |s| && s[..|prefix|] == prefix
  }

  const PerformanceNamespace: string := "index:performance:"
  const CompositionNamespace: string := "index:composition:"
  const ChangesNamespace: string := "index:changes:"

  /** `get_performance_cache_key`. */
  function PerformanceKey(start: string, end: string): (k: string)
    ensures HasPrefix(k, PerformanceNamespace)
    ensures k[|PerformanceNamespace|..] == start + ":" + end
  {
    PerformanceNamespace + start + ":" + end
  }

  /** `get_composition_cache_key`. */
  function CompositionKey(date: string): (k: string)
    ensures HasPrefix(k, CompositionNamespace)
    ensures k[|CompositionNamespace|..] == date
  {
    CompositionNamespace + date
  }

  /** `get_changes_cache_key`. */
  function ChangesKey(start: string, end: string): (k: string)
    ensures HasPrefix(k, ChangesNamespace)
    ensures k[|ChangesNamespace|..] == start + ":" + end
  {
    ChangesNamespace + start + ":" + end
  }

  /** No key lies in two of the three namespaces. */
  lemma NamespacesDisjoint(k: string)
    ensures HasPrefix(k, PerformanceNamespace) ==> !HasPrefix(k, CompositionNamespace) && !HasPrefix(k, ChangesNamespace)
    ensures HasPrefix(k, CompositionNamespace) ==> !HasPrefix(k, ChangesNamespace)
  {
    if HasPrefix(k, PerformanceNamespace) {
      assert k[6] == PerformanceNamespace[6] == 'p';
      assert CompositionNamespace[6] == 'c' && ChangesNamespace[6] == 'c';
    }
    if HasPrefix(k, CompositionNamespace) {
      assert k[7] == CompositionNamespace[7] == 'o';
      assert ChangesNamespace[7] == 'h';
    }
  }

  /** A composition key is determined by its date text. */
  lemma CompositionKeyInjective(a: string, b: string)
    ensures CompositionKey(a) == CompositionKey(b) ==> a == b
  {
  }

  ghost predicate FreeOfColons(s: string)
  {
    forall k :: 0 <= k < |s| ==> s[k] != ':'
  }

  /** `start + ":" + end` determines both halves when neither holds a colon (ISO dates do not). */
  lemma {:induction false} RangeTextInjective(s1: string, e1: string, s2: string, e2: string)
    requires FreeOfColons(s1) && FreeOfColons(s2)
    ensures s1 + ":" + e1 == s2 + ":" + e2 ==> s1 == s2 && e1 == e2
  {
    var t1, t2 := s1 + ":" + e1, s2 + ":" + e2;
    if t1 == t2 {
      assert t1[|s1|] == ':' && t2[|s2|] == ':';
      assert forall k :: 0 <= k < |s1| ==> t1[k] != ':';
      assert forall k :: 0 <= k < |s2| ==> t2[k] != ':';
      assert |s1| == |s2|;
      assert s1 == t1[..|s1|] && s2 == t2[..|s2|];
      assert e1 == t1[|s1| + 1..] && e2 == t2[|s2| + 1..];
    }
  }

  /** Range keys with colon-free bounds are determined by their bounds. */
  lemma RangeKeysInjective(s1: string, e1: string, s2: string, e2: string)
    requires FreeOfColons(s1) && FreeOfColons(s2)
    ensures PerformanceKey(s1, e1) == PerformanceKey(s2, e2) ==> s1 == s2 && e1 == e2
    ensures ChangesKey(s1, e1) == ChangesKey(s2, e2) ==> s1 == s2 && e1 == e2
  {
    RangeTextInjective(s1, e1, s2, e2);
  }

  /**
    `RedisCache.get`: the decoded document, or `None` when the backend fails,
    the key is missing, or its text is empty or not JSON.
  */
  function Get<V>(c: RedisCache<V>, key: string): (r: Option<V>)
    ensures r.Some? <==> c.available && key in c.entries && c.entries[key].text.Json?
    ensures r.Some? ==> r.value == c.entries[key].text.value
  {
    if c.available && key in c.entries then
      match c.entries[key].text
      case Json(v) => Some(v)
      case Unreadable => None
    else None
  }

  /** `ttl or self.default_ttl`: `None` and `0` both fall back to the default. */
  function EffectiveTtl<V>(c: RedisCache<V>, ttl: Option<int>): (t: int)
    ensures ttl.None? ==> t == c.defaultTtl
    ensures ttl == Some(0) ==> t == c.defaultTtl
    ensures ttl.Some? && ttl.value != 0 ==> t == ttl.value
  {
    match ttl
    case None => c.defaultTtl
    case Some(n) => if n == 0 then c.defaultTtl else n
  }

  /**
    `RedisCache.set` for a value `json.dumps` can encode: SETEX stores it with
    the effective TTL and reports `True`; a failing backend, or an expiry
    SETEX rejects (not positive), leaves the cache as it was and reports `False`.
  */
  function Set<V>(c: RedisCache<V>, key: string, v: V, ttl: Option<int>): (r: (RedisCache<V>, bool))
    ensures r.1 <==> c.available && EffectiveTtl(c, ttl) > 0
    ensures r.1 ==> r.0 == c.(entries := c.entries[key := Entry(Json(v), EffectiveTtl(c, ttl))])
    ensures !r.1 ==> r.0 == c
  {
    var t := EffectiveTtl(c, ttl);
    if c.available && t > 0 then (c.(entries := c.entries[key := Entry(Json(v), t)]), true)
    else (c, false)
  }

  /**
    `RedisCache.set` as written: when `json.dumps` raises (`TypeError` on a
    `datetime.date`), the error is swallowed, nothing is stored and the call
    reports `False`.
  */
  function SetAsWritten<V>(c: RedisCache<V>, key: string, v: V, ttl: Option<int>, encodable: bool): (r: (RedisCache<V>, bool))
    ensures !encodable ==> r == (c, false)
    ensures encodable ==> r == Set(c, key, v, ttl)
  {
    if encodable then Set(c, key, v, ttl) else (c, false)
  }

  /** `RedisCache.delete`: removes `key` and reports whether it was there; a failing backend reports `False`. */
  function Delete<V>(c: RedisCache<V>, key: string): (r: (RedisCache<V>, bool))
    ensures r.1 <==> c.available && key in c.entries
    ensures c.available ==> r.0.entries.Keys == c.entries.Keys - {key}
    ensures forall k :: k in r.0.entries ==> k in c.entries && r.0.entries[k] == c.entries[k]
    ensures !c.available ==> r.0 == c
    ensures r.0.defaultTtl == c.defaultTtl && r.0.available == c.available
  {
    if c.available then (c.(entries := c.entries - {key}), key in c.entries)
    else (c, false)
  }

  /** Text that holds none of the glob metacharacters Redis `KEYS` interprets. */
  predicate IsLiteralGlobText(s: string)
  {
    forall k :: 0 <= k < |s| ==> s[k] != '*' && s[k] != '?' && s[k] != '[' && s[k] != ']' && s[k] != '\\'
  }

  /** The keys `KEYS prefix*` returns. */
  function KeysWithPrefix<V>(c: RedisCache<V>, prefix: string): (r: set<string>)
    ensures forall k :: k in r <==> k in c.entries && HasPrefix(k, prefix)
  {
    set k | k in c.entries && HasPrefix(k, prefix)
  }

  /**
    Redis glob matching (`KEYS`) for patterns without character classes or
    escapes: `*` matches any run of characters, `?` any one character, and
    every other character itself.
  */
  predicate GlobMatch(pattern: string, s: string)
    decreases |pattern| + |s|
  {
    if pattern == [] then s == []
    else if pattern[0] == '*' then GlobMatch(pattern[1..], s) || (s != [] && GlobMatch(pattern, s[1..]))
    else s != [] && (pattern[0] == '?' || pattern[0] == s[0]) && GlobMatch(pattern[1..], s[1..])
  }

  /** A lone `*` matches every text. */
  lemma {:induction false} StarMatchesAll(s: string)
    ensures GlobMatch("*", s)
  {
    if s != [] {
      StarMatchesAll(s[1..]);
    }
  }

  /** A literal prefix followed by `*` matches exactly the texts that start with the prefix. */
  lemma {:induction false} PrefixStarMatches(prefix: string, s: string)
    requires IsLiteralGlobText(prefix)
    ensures GlobMatch(prefix + "*", s) <==> HasPrefix(s, prefix)
  {
    if prefix == [] {
      assert prefix + "*" == "*";
      StarMatchesAll(s);
    } else {
      var p := prefix + "*";
      assert p[0] == prefix[0] && p[1..] == prefix[1..] + "*";
      assert IsLiteralGlobText(prefix[1..]) by {
        forall k | 0 <= k < |prefix[1..]| ensures prefix[1..][k] == prefix[k + 1] {}
      }
      if s != [] {
        PrefixStarMatches(prefix[1..], s[1..]);
        if HasPrefix(s, prefix) {
          assert s[1..][..|prefix[1..]|] == s[..|prefix|][1..];
        }
        if HasPrefix(s[1..], prefix[1..]) && prefix[0] == s[0] {
          assert s[..|prefix|] == [s[0]] + s[1..][..|prefix[1..]|];
        }
      }
    }
  }

  /** `KeysWithPrefix` is what `KEYS prefix*` returns under Redis glob matching. */
  lemma KeysWithPrefixMatch<V>(c: RedisCache<V>, prefix: string)
    requires IsLiteralGlobText(prefix)
    ensures KeysWithPrefix(c, prefix) == set k | k in c.entries && GlobMatch(prefix + "*", k)
  {
    forall k | k in c.entries ensures GlobMatch(prefix + "*", k) <==> HasPrefix(k, prefix) {
      PrefixStarMatches(prefix, k);
    }
  }

  /**
    `RedisCache.delete_pattern` for a pattern `prefix*`: removes every key
    that starts with `prefix` and reports how many it removed; 0 when none
    match or the backend fails.
  */
  function DeletePattern<V>(c: RedisCache<V>, pattern: string): (r: (RedisCache<V>, nat))
    requires |pattern| > 0 && pattern[|pattern| - 1] == '*'
    requires IsLiteralGlobText(pattern[..|pattern| - 1])
    ensures var prefix := pattern[..|pattern| - 1];
      && (c.available ==> forall k :: k in r.0.entries <==> k in c.entries && !HasPrefix(k, prefix))
      && (forall k :: k in r.0.entries ==> k in c.entries && r.0.entries[k] == c.entries[k])
      && (c.available ==> r.1 == |KeysWithPrefix(c, prefix)|)
      && ((forall k :: k in c.entries ==> !HasPrefix(k, prefix)) ==> r.1 == 0)
      && (!c.available ==> r == (c, 0))
    ensures r.0.defaultTtl == c.defaultTtl && r.0.available == c.available
  {
    var prefix := pattern[..|pattern| - 1];
    if !c.available then (c, 0)
    else
      var matched := KeysWithPrefix(c, prefix);
      if matched == {} then (c, 0)
      else (c.(entries := c.entries - matched), |matched|)
  }

  /** A stored value reads back. */
  lemma SetThenGet<V>(c: RedisCache<V>, key: string, v: V, ttl: Option<int>)
    requires c.available && EffectiveTtl(c, ttl) > 0
    ensures Get(Set(c, key, v, ttl).0, key) == Some(v)
  {
  }

  /** Setting one key leaves every other key's reading unchanged. */
  lemma SetLeavesOtherKeys<V>(c: RedisCache<V>, key: string, other: string, v: V, ttl: Option<int>)
    requires other != key
    ensures Get(Set(c, key, v, ttl).0, other) == Get(c, other)
  {
  }

  /** A deleted key reads as a miss, and other keys read as before. */
  lemma DeleteThenGet<V>(c: RedisCache<V>, key: string, other: string)
    requires other != key
    ensures Get(Delete(c, key).0, key) == None
    ensures Get(Delete(c, key).0, other) == Get(c, other)
  {
  }
}

/** The in-memory LRU cache of transformed SVG markup (`svgCache`,
    `cacheGet`, `cacheSet`).  Recency lives in the `Map`'s insertion order:
    the first pair is the least recently used, the last the most recent. */
module SvgLruCache {
  import opened Wrappers
  import opened OrderedMap

  /** `SVG_CACHE_LIMIT` */
  const SvgCacheLimit: nat := 15

  /** What every reachable cache satisfies: a `Map` (distinct keys) that
      `cacheSet` keeps at or below the limit. */
  predicate CacheInvariant(s: seq<Entry>) {
    DistinctKeys(s) && |s| <= SvgCacheLimit
  }

  /** The value `cacheGet` returns and the entries it leaves behind. */
  datatype Lookup = Lookup(value: Option<string>, entries: seq<Entry>)

  /** `cacheGet(key)`: a hit is deleted and set again, which makes it the
      newest pair; a miss changes nothing. */
  function CacheGetSpec(s: seq<Entry>, key: string): (r: Lookup)
    ensures r.value == Find(s, key)
    ensures forall k {:trigger Find(r.entries, k)} :: Find(r.entries, k) == Find(s, k)
    ensures DistinctKeys(s) ==> DistinctKeys(r.entries) && |r.entries| == |s|
  {
    var value := Find(s, key);
    if value.Some? then Lookup(value, Put(Delete(s, key), key, value.value))
    else Lookup(value, s)
  }

  /** `cacheSet(key, value)`: delete the key if present, set it (so it is
      appended as the newest pair), then evict the first key when the size
      exceeds the limit. */
  function CacheSetSpec(s: seq<Entry>, key: string, value: string): (r: seq<Entry>)
    ensures SetsNewest(s, key, value, r)
  {
    CacheSetResult(s, key, value);
    EvictOverflow(Put(Unset(s, key), key, value))
  }

  /** `if (svgCache.has(key)) svgCache.delete(key)` */
  function Unset(s: seq<Entry>, key: string): seq<Entry> {
    if HasKey(s, key) then Delete(s, key) else s
  }

  /** Dropping the first key once the size exceeds the limit. */
  function EvictOverflow(stored: seq<Entry>): seq<Entry> {
    if |stored| > SvgCacheLimit then
      match FirstKey(stored)
      case Some(oldest) => Delete(stored, oldest)
      case None => stored
    else stored
  }

  /** What `cacheSet` promises: `r` maps the key to the value and holds it
      as its newest pair, every other key it keeps has its old value, and the
      cache stays a `Map` within the limit. */
  ghost predicate SetsNewest(s: seq<Entry>, key: string, value: string, r: seq<Entry>) {
    && Find(r, key) == Some(value)
    && |r| > 0 && r[|r| - 1] == (key, value)
    && (forall k | k != key && Find(r, k).Some? :: Find(r, k) == Find(s, k))
    && (DistinctKeys(s) ==> DistinctKeys(r))
    && (|s| <= SvgCacheLimit ==> |r| <= SvgCacheLimit)
  }

  /** The steps of `cacheSet` deliver that promise. */
  lemma CacheSetResult(s: seq<Entry>, key: string, value: string)
    ensures SetsNewest(s, key, value, EvictOverflow(Put(Unset(s, key), key, value)))
  {
    var cleared := Unset(s, key);
    ClearedFacts(s, key, cleared);
    var stored := Put(cleared, key, value);
    var r := EvictOverflow(stored);
    if |stored| > SvgCacheLimit {
      EvictBranch(s, key, value, cleared, stored, r);
    } else {
      PutAbsent(cleared, key, value);
      StoredFacts(s, key, value, cleared, r);
    }
  }

  /** `cacheSet` on an overflowing cache: the set, then the eviction. */
  lemma EvictBranch(s: seq<Entry>, key: string, value: string, cleared: seq<Entry>,
                    stored: seq<Entry>, r: seq<Entry>)
    requires !HasKey(cleared, key) && |cleared| <= |s|
    requires forall k | k != key :: Find(cleared, k) == Find(s, k)
    requires DistinctKeys(s) ==> DistinctKeys(cleared)
    requires stored == Put(cleared, key, value) && |stored| > SvgCacheLimit
    requires r == Delete(stored, stored[0].0)
    ensures Find(r, key) == Some(value)
    ensures |r| > 0 && r[|r| - 1] == (key, value)
    ensures forall k | k != key && Find(r, k).Some? :: Find(r, k) == Find(s, k)
    ensures DistinctKeys(s) ==> DistinctKeys(r)
    ensures |s| <= SvgCacheLimit ==> |r| <= SvgCacheLimit
  {
    PutAbsent(cleared, key, value);
    HasKeyAt(cleared, 0);
    EvictKeepsNewest(cleared, key, value);
    EvictFacts(stored, key, value, r);
    StoredFacts(s, key, value, cleared, stored);
    EvictedResult(s, key, value, stored, r);
  }

  /** The pairs after the `set`, before any eviction. */
  lemma StoredFacts(s: seq<Entry>, key: string, value: string, cleared: seq<Entry>, stored: seq<Entry>)
    requires !HasKey(cleared, key) && |cleared| <= |s|
    requires forall k | k != key :: Find(cleared, k) == Find(s, k)
    requires DistinctKeys(s) ==> DistinctKeys(cleared)
    requires stored == Put(cleared, key, value) && stored == cleared + [(key, value)]
    ensures Find(stored, key) == Some(value)
    ensures |stored| > 0 && stored[|stored| - 1] == (key, value)
    ensures forall k | k != key && Find(stored, k).Some? :: Find(stored, k) == Find(s, k)
    ensures DistinctKeys(s) ==> DistinctKeys(stored)
    ensures |stored| <= |s| + 1
  {
  }

  /** The pairs after an eviction. */
  lemma EvictedResult(s: seq<Entry>, key: string, value: string, stored: seq<Entry>, r: seq<Entry>)
    requires forall k | k != key && Find(stored, k).Some? :: Find(stored, k) == Find(s, k)
    requires DistinctKeys(s) ==> DistinctKeys(stored)
    requires |stored| <= |s| + 1 && |r| < |stored|
    requires Find(r, key) == Some(value) && |r| > 0 && r[|r| - 1] == (key, value)
    requires forall k | Find(r, k).Some? :: Find(r, k) == Find(stored, k)
    requires DistinctKeys(stored) ==> DistinctKeys(r)
    ensures forall k | k != key && Find(r, k).Some? :: Find(r, k) == Find(s, k)
    ensures DistinctKeys(s) ==> DistinctKeys(r)
    ensures |s| <= SvgCacheLimit ==> |r| <= SvgCacheLimit
  {
  }

  /** After the optional `delete`, the key is absent and nothing else changed. */
  lemma ClearedFacts(s: seq<Entry>, key: string, cleared: seq<Entry>)
    requires cleared == Unset(s, key)
    ensures !HasKey(cleared, key) && |cleared| <= |s|
    ensures forall k | k != key :: Find(cleared, k) == Find(s, k)
    ensures DistinctKeys(s) ==> DistinctKeys(cleared)
  {
  }

  /** Evicting the first pair, whose key is not the one just set, keeps
      the mapping just set and every other mapping that survives. */
  lemma EvictFacts(stored: seq<Entry>, key: string, value: string, r: seq<Entry>)
    requires stored != [] && stored[0].0 != key && Find(stored, key) == Some(value)
    requires r == Delete(stored, stored[0].0)
    ensures Find(r, key) == Some(value) && |r| < |stored|
    ensures forall k | Find(r, k).Some? :: Find(r, k) == Find(stored, k)
    ensures DistinctKeys(stored) ==> DistinctKeys(r)
  {
  }

  /** Evicting the oldest key of a sequence with more than one pair leaves
      its newest pair in place. */
  lemma EvictKeepsNewest(cleared: seq<Entry>, key: string, value: string)
    requires !HasKey(cleared, key) && |cleared| > 0
    ensures
      var stored := cleared + [(key, value)];
      var r := Delete(stored, stored[0].0);
      |r| > 0 && r[|r| - 1] == (key, value)
  {
    var stored := cleared + [(key, value)];
    EvictLast(stored, stored[0].0);
  }

  /** Deleting a key other than the last pair's keeps the last pair last. */
  lemma {:induction false} EvictLast(s: seq<Entry>, k: string)
    requires |s| > 0 && s[|s| - 1].0 != k
    ensures var r := Delete(s, k); |r| > 0 && r[|r| - 1] == s[|s| - 1]
  {
    if |s| > 1 {
      EvictLast(s[1..], k);
    }
  }

  /** A hit hands back the stored value and moves exactly that pair to the
      newest position; the other pairs keep their relative order. */
  lemma CacheGetHit(s: seq<Entry>, i: nat)
    requires DistinctKeys(s) && i < |s|
    ensures CacheGetSpec(s, s[i].0) == Lookup(Some(s[i].1), s[..i] + s[i + 1..] + [s[i]])
  {
    FindAt(s, i);
    DeleteAt(s, i);
    PutAbsent(s[..i] + s[i + 1..], s[i].0, s[i].1);
  }

  /** A miss returns `undefined` and leaves the cache untouched. */
  lemma CacheGetMiss(s: seq<Entry>, key: string)
    requires !HasKey(s, key)
    ensures CacheGetSpec(s, key) == Lookup(None, s)
  {
  }

  /** Storing a new key appends it as the newest pair; on a full cache the
      oldest pair, and only that one, is evicted. */
  lemma CacheSetFresh(s: seq<Entry>, key: string, value: string)
    requires CacheInvariant(s) && !HasKey(s, key)
    ensures CacheSetSpec(s, key, value)
         == (if |s| == SvgCacheLimit then s[1..] else s) + [(key, value)]
  {
    if |s| == SvgCacheLimit {
      CacheSetOverflow(s, key, value);
      DeleteFirst(s + [(key, value)]);
      SnocTail(s, (key, value));
    } else {
      PutAbsent(s, key, value);
    }
  }

  /** A new key on a full cache overflows it by one, and the first key of
      the overflowing sequence is evicted. */
  lemma CacheSetOverflow(s: seq<Entry>, key: string, value: string)
    requires CacheInvariant(s) && !HasKey(s, key) && |s| == SvgCacheLimit
    ensures CacheSetSpec(s, key, value) == Delete(s + [(key, value)], s[0].0)
    ensures DistinctKeys(s + [(key, value)])
  {
    PutAbsent(s, key, value);
  }

  /** Storing a key that is already cached replaces its value and moves it
      to the newest position; the size is unchanged and nothing is evicted. */
  lemma CacheSetExisting(s: seq<Entry>, i: nat, value: string)
    requires CacheInvariant(s) && i < |s|
    ensures CacheSetSpec(s, s[i].0, value) == s[..i] + s[i + 1..] + [(s[i].0, value)]
    ensures |CacheSetSpec(s, s[i].0, value)| == |s|
  {
    var key := s[i].0;
    DeleteAt(s, i);
    var cleared := s[..i] + s[i + 1..];
    PutAbsent(cleared, key, value);
  }

  /** Both cache operations keep the cache invariant. */
  lemma CacheOpsKeepInvariant(s: seq<Entry>, key: string, value: string)
    requires CacheInvariant(s)
    ensures CacheInvariant(CacheGetSpec(s, key).entries)
    ensures CacheInvariant(CacheSetSpec(s, key, value))
  {
  }

  /** The last `n` elements of `s`, or all of them when there are fewer. */
  function Newest<T>(s: seq<T>, n: nat): (r: seq<T>)
    ensures |r| == if |s| <= n then |s| else n
  {
    if |s| <= n then s else s[|s| - n..]
  }

  /** `cacheSet` applied to each pair of `kvs` in turn. */
  function CacheSetAll(s: seq<Entry>, kvs: seq<Entry>): seq<Entry>
    decreases |kvs|
  {
    if kvs == [] then s
    else CacheSetAll(CacheSetSpec(s, kvs[0].0, kvs[0].1), kvs[1..])
  }

  /** Keeping the newest `n` pairs after one insertion and then inserting
      the rest gives the newest `n` pairs of all insertions. */
  lemma NewestAppend<T>(x: seq<T>, e: T, y: seq<T>, n: nat)
    ensures Newest(Newest(x + [e], n) + y, n) == Newest(x + ([e] + y), n)
  {
    var u := x + [e];
    AppendAssoc(x, [e], y);
    if |u| > n {
      var m := |u| - n;
      assert u == u[..m] + u[m..];
      AppendAssoc(u[..m], u[m..], y);
      NewestOfLonger(u[..m], u[m..] + y, n);
    }
  }

  /** The newest `n` of a sequence lie within any suffix of length `n` or more. */
  lemma NewestOfLonger<T>(p: seq<T>, q: seq<T>, n: nat)
    requires |q| >= n
    ensures Newest(p + q, n) == Newest(q, n)
  {
    assert (p + q)[|p + q| - n..] == q[|q| - n..];
  }

  lemma CacheSetAllCons(s: seq<Entry>, kvs: seq<Entry>)
    requires kvs != []
    ensures CacheSetAll(s, kvs) == CacheSetAll(CacheSetSpec(s, kvs[0].0, kvs[0].1), kvs[1..])
  {
  }

  /** Inserting keys the cache has never seen leaves exactly the
      `SVG_CACHE_LIMIT` most recently inserted pairs, in insertion order:
      every eviction removed the least recently used pair. */
  lemma {:induction false} CacheSetAllFresh(s: seq<Entry>, kvs: seq<Entry>)
    requires CacheInvariant(s) && DistinctKeys(s + kvs)
    ensures CacheSetAll(s, kvs) == Newest(s + kvs, SvgCacheLimit)
    decreases |kvs|
  {
    if kvs != [] {
      var kv, rest := kvs[0], kvs[1..];
      assert kvs == [kv] + rest;
      CacheSetAllCons(s, kvs);
      FreshStep(s, kv, rest);
      CacheSetAllFresh(CacheSetSpec(s, kv.0, kv.1), rest);
      NewestAppend(s, kv, rest, SvgCacheLimit);
    }
  }

  /** One step of `CacheSetAllFresh`: the first insertion keeps the
      premises for the remaining ones. */
  lemma FreshStep(s: seq<Entry>, kv: Entry, rest: seq<Entry>)
    requires CacheInvariant(s) && DistinctKeys(s + ([kv] + rest))
    ensures
      var s' := CacheSetSpec(s, kv.0, kv.1);
      CacheInvariant(s') && DistinctKeys(s' + rest) && s' == Newest(s + [kv], SvgCacheLimit)
  {
    FreshKeys(s, kv, rest);
    CacheSetFresh(s, kv.0, kv.1);
    var s' := CacheSetSpec(s, kv.0, kv.1);
    CacheOpsKeepInvariant(s, kv.0, kv.1);
    forall k | HasKey(s', k) ensures !HasKey(rest, k) {
      if k != kv.0 {
        assert Find(s, k) == Find(s', k);
      }
    }
    DistinctAppend(s', rest);
    if |s| == SvgCacheLimit {
      SnocTail(s, kv);
    }
  }

  /** What distinct keys across `s`, `kv` and `rest` say about each part. */
  lemma FreshKeys(s: seq<Entry>, kv: Entry, rest: seq<Entry>)
    requires DistinctKeys(s + ([kv] + rest))
    ensures !HasKey(s, kv.0) && !HasKey(rest, kv.0) && DistinctKeys(rest)
    ensures forall k :: HasKey(s, k) ==> !HasKey(rest, k)
  {
    DistinctAppend(s, [kv] + rest);
    HasKeyAppend([kv], rest, kv.0);
    forall k | HasKey(s, k) ensures !HasKey(rest, k) {
      HasKeyAppend([kv], rest, k);
    }
  }

  /** The process-wide cache, as an object whose one field the source's
      `Map` methods update in place. */
  class SvgCache {
    var entries: seq<Entry>

    ghost predicate Valid()
      reads this
    {
      CacheInvariant(entries)
    }

    /** `new Map()` */
    constructor ()
      ensures Valid() && entries == []
    {
      entries := [];
    }

    /** `cacheGet(key)` */
    method CacheGet(key: string) returns (value: Option<string>)
      requires Valid()
      modifies this
      ensures Valid()
      ensures Lookup(value, entries) == CacheGetSpec(old(entries), key)
      ensures value == Find(old(entries), key)
      ensures forall k :: Find(entries, k) == Find(old(entries), k)
    {
      value := Find(entries, key);
      if value.Some? {
        // a hit becomes the newest pair
        entries := Delete(entries, key);
        entries := Put(entries, key, value.value);
      }
    }

    /** `cacheSet(key, value)` */
    method CacheSet(key: string, value: string)
      requires Valid()
      modifies this
      ensures Valid()
      ensures entries == CacheSetSpec(old(entries), key, value)
      ensures Find(entries, key) == Some(value)
      ensures entries[|entries| - 1] == (key, value)
    {
      if HasKey(entries, key) {
        entries := Delete(entries, key);
      }
      entries := Put(entries, key, value);
      if |entries| > SvgCacheLimit {
        var oldestKey := FirstKey(entries);
        if oldestKey.Some? {
          entries := Delete(entries, oldestKey.value);
        }
      }
    }
  }
}

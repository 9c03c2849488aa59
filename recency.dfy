/** Why the cache is least-recently-used: after any sequence of `cacheGet`
    and `cacheSet` calls, the cached keys in `Map` order are the (at most)
    `SVG_CACHE_LIMIT` most recently used keys, least recent first.  A key
    is used when it is set, or when a get finds it. */
module Recency {
  import opened OrderedMap
  import opened SvgLruCache

  /** The keys of a map in iteration order. */
  function Keys(s: seq<Entry>): seq<string> {
    seq(|s|, i requires 0 <= i < |s| => s[i].0)
  }

  predicate Distinct(x: seq<string>) {
    forall i, j | 0 <= i < j < |x| :: x[i] != x[j]
  }

  /** `x` without `k`, the rest in order. */
  function Remove(x: seq<string>, k: string): seq<string> {
    if x == [] then []
    else (if x[0] == k then [] else [x[0]]) + Remove(x[1..], k)
  }

  /** The keys used in `log`, each once, ordered by their last use. */
  function RecencyOrder(log: seq<string>): seq<string> {
    if log == [] then []
    else Remove(RecencyOrder(log[..|log| - 1]), log[|log| - 1]) + [log[|log| - 1]]
  }

  /** Removing a key removes every occurrence of it and nothing else, and
      keeps a duplicate-free sequence duplicate-free. */
  lemma {:induction false} RemoveFacts(x: seq<string>, k: string)
    ensures k !in Remove(x, k)
    ensures forall y | y in Remove(x, k) :: y in x
    ensures Distinct(x) ==> Distinct(Remove(x, k))
  {
    if x != [] {
      RemoveFacts(x[1..], k);
      var rest := Remove(x[1..], k);
      var r := Remove(x, k);
      if x[0] != k {
        assert r == [x[0]] + rest;
        if Distinct(x) {
          assert Distinct(x[1..]);
          forall i, j | 0 <= i < j < |r| ensures r[i] != r[j] {
            if i == 0 {
              assert r[j] in rest;
              assert x[0] !in x[1..];
            } else {
              assert r[i] == rest[i - 1] && r[j] == rest[j - 1];
            }
          }
        }
      } else {
        assert r == rest;
      }
    }
  }

  /** The recency order never lists a key twice. */
  lemma {:induction false} RecencyOrderDistinct(log: seq<string>)
    ensures Distinct(RecencyOrder(log))
  {
    if log != [] {
      var k := log[|log| - 1];
      var before := RecencyOrder(log[..|log| - 1]);
      RecencyOrderDistinct(log[..|log| - 1]);
      RemoveFacts(before, k);
      var r := Remove(before, k) + [k];
      forall i, j | 0 <= i < j < |r| ensures r[i] != r[j] {
        if j == |r| - 1 {
          assert r[i] in Remove(before, k);
        }
      }
    }
  }

  /** A cache operation as the source performs it. */
  datatype CacheOp = Get(key: string) | Set(key: string, value: string)

  function Apply(s: seq<Entry>, op: CacheOp): seq<Entry> {
    match op
    case Get(k) => CacheGetSpec(s, k).entries
    case Set(k, v) => CacheSetSpec(s, k, v)
  }

  /** The key an operation uses: a set always, a get only when it hits. */
  function Used(s: seq<Entry>, op: CacheOp): seq<string> {
    if op.Set? || HasKey(s, op.key) then [op.key] else []
  }

  /** The cache after the operations `ops`, in turn. */
  function Replay(s: seq<Entry>, ops: seq<CacheOp>): seq<Entry>
    decreases |ops|
  {
    if ops == [] then s else Replay(Apply(s, ops[0]), ops[1..])
  }

  /** The keys the operations `ops` use, in order. */
  function UsedKeys(s: seq<Entry>, ops: seq<CacheOp>): seq<string>
    decreases |ops|
  {
    if ops == [] then [] else Used(s, ops[0]) + UsedKeys(Apply(s, ops[0]), ops[1..])
  }

  /** Starting from an empty cache, the cached keys are the
      `SVG_CACHE_LIMIT` most recently used keys, least recent first. */
  lemma CacheOrderIsRecency(ops: seq<CacheOp>)
    ensures Keys(Replay([], ops)) == Newest(RecencyOrder(UsedKeys([], ops)), SvgCacheLimit)
  {
    assert Keys([]) == [];
    ReplayKeepsRecency([], [], ops);
    assert [] + UsedKeys([], ops) == UsedKeys([], ops);
  }

  /** Replaying operations keeps the cache order equal to the recency
      order of every use so far. */
  lemma {:induction false} ReplayKeepsRecency(s: seq<Entry>, log: seq<string>, ops: seq<CacheOp>)
    requires CacheInvariant(s) && Keys(s) == Newest(RecencyOrder(log), SvgCacheLimit)
    ensures Keys(Replay(s, ops)) == Newest(RecencyOrder(log + UsedKeys(s, ops)), SvgCacheLimit)
    decreases |ops|
  {
    if ops == [] {
      ReplayNil(s, log);
    } else {
      ReplayCons(s, ops);
      OperationKeepsRecency(s, log, ops[0]);
      ReplayKeepsRecency(Apply(s, ops[0]), log + Used(s, ops[0]), ops[1..]);
      LogAssoc(Replay(Apply(s, ops[0]), ops[1..]), Replay(s, ops), log,
               Used(s, ops[0]), UsedKeys(Apply(s, ops[0]), ops[1..]), UsedKeys(s, ops));
    }
  }

  lemma ReplayNil(s: seq<Entry>, log: seq<string>)
    ensures Replay(s, []) == s && log + UsedKeys(s, []) == log
  {
  }

  lemma LogAssoc(a: seq<Entry>, b: seq<Entry>, log: seq<string>, u: seq<string>, w: seq<string>, v: seq<string>)
    requires a == b && v == u + w
    requires Keys(a) == Newest(RecencyOrder(log + u + w), SvgCacheLimit)
    ensures Keys(b) == Newest(RecencyOrder(log + v), SvgCacheLimit)
  {
    assert log + u + w == log + (u + w);
  }

  lemma ReplayCons(s: seq<Entry>, ops: seq<CacheOp>)
    requires ops != [] && CacheInvariant(s)
    ensures Replay(s, ops) == Replay(Apply(s, ops[0]), ops[1..])
    ensures UsedKeys(s, ops) == Used(s, ops[0]) + UsedKeys(Apply(s, ops[0]), ops[1..])
    ensures CacheInvariant(Apply(s, ops[0]))
  {
    match ops[0] {
      case Get(k) => CacheOpsKeepInvariant(s, k, "");
      case Set(k, v) => CacheOpsKeepInvariant(s, k, v);
    }
  }

  /** One `cacheGet` or `cacheSet` keeps the cache order equal to the
      recency order. */
  lemma OperationKeepsRecency(s: seq<Entry>, log: seq<string>, op: CacheOp)
    requires CacheInvariant(s) && Keys(s) == Newest(RecencyOrder(log), SvgCacheLimit)
    ensures Keys(Apply(s, op)) == Newest(RecencyOrder(log + Used(s, op)), SvgCacheLimit)
  {
    if !op.Set? && !HasKey(s, op.key) {
      MissKeepsRecency(s, log, op);
    } else if HasKey(s, op.key) {
      var i := KeyIndex(s, op.key);
      PresentKeepsRecency(s, log, op, i);
    } else {
      FreshKeepsRecency(s, log, op);
    }
  }

  /** A `cacheGet` miss changes neither the cache nor the log. */
  lemma MissKeepsRecency(s: seq<Entry>, log: seq<string>, op: CacheOp)
    requires op.Get? && !HasKey(s, op.key)
    requires Keys(s) == Newest(RecencyOrder(log), SvgCacheLimit)
    ensures Keys(Apply(s, op)) == Newest(RecencyOrder(log + Used(s, op)), SvgCacheLimit)
  {
    CacheGetMiss(s, op.key);
    assert log + Used(s, op) == log;
  }

  /** Using a cached key moves it to the end of both orders. */
  lemma PresentKeepsRecency(s: seq<Entry>, log: seq<string>, op: CacheOp, i: nat)
    requires CacheInvariant(s) && Keys(s) == Newest(RecencyOrder(log), SvgCacheLimit)
    requires i < |s| && s[i].0 == op.key
    ensures Keys(Apply(s, op)) == Newest(RecencyOrder(log + Used(s, op)), SvgCacheLimit)
  {
    var k := op.key;
    var e := ApplyPresent(s, op, i);
    RecencySnoc(log, k);
    KeysMove(s, i, e);
    RecencyOrderDistinct(log);
    assert Keys(s)[i] == k;
    NewestTouchPresent(RecencyOrder(log), k, SvgCacheLimit);
  }

  /** What a `cacheGet` hit or a `cacheSet` of a cached key does, with the
      pair that ends up last. */
  lemma ApplyPresent(s: seq<Entry>, op: CacheOp, i: nat) returns (e: Entry)
    requires CacheInvariant(s) && i < |s| && s[i].0 == op.key
    ensures e.0 == op.key && Used(s, op) == [op.key]
    ensures Apply(s, op) == s[..i] + s[i + 1..] + [e]
  {
    HasKeyAt(s, i);
    if op.Set? {
      e := (op.key, op.value);
      CacheSetExisting(s, i, op.value);
    } else {
      e := s[i];
      CacheGetHit(s, i);
    }
  }

  /** Setting a key the cache does not hold appends it to both orders and,
      on a full cache, drops the oldest key of both. */
  lemma FreshKeepsRecency(s: seq<Entry>, log: seq<string>, op: CacheOp)
    requires CacheInvariant(s) && Keys(s) == Newest(RecencyOrder(log), SvgCacheLimit)
    requires op.Set? && !HasKey(s, op.key)
    ensures Keys(Apply(s, op)) == Newest(RecencyOrder(log + Used(s, op)), SvgCacheLimit)
  {
    var k, e := op.key, (op.key, op.value);
    var order := RecencyOrder(log);
    var t := Newest(order, SvgCacheLimit);
    assert Used(s, op) == [k];
    CacheSetFresh(s, k, op.value);
    var kept := if |s| == SvgCacheLimit then s[1..] else s;
    assert Apply(s, op) == kept + [e];
    KeysConcat(kept, [e]);
    assert Keys([e]) == [k];
    if |s| == SvgCacheLimit {
      KeysSlice(s, 1);
      assert Keys(kept) == t[1..];
    } else {
      assert Keys(kept) == t;
    }
    KeysDistinct(s);
    RecencyOrderDistinct(log);
    NewestTouchAbsent(order, k, SvgCacheLimit);
    RecencySnoc(log, k);
  }

  /** Using `k` moves it to the end of the recency order. */
  lemma RecencySnoc(log: seq<string>, k: string)
    ensures RecencyOrder(log + [k]) == Remove(RecencyOrder(log), k) + [k]
  {
    assert (log + [k])[..|log|] == log;
  }

  lemma KeysConcat(a: seq<Entry>, b: seq<Entry>)
    ensures Keys(a + b) == Keys(a) + Keys(b)
  {
  }

  lemma KeysSlice(s: seq<Entry>, i: nat)
    requires i <= |s|
    ensures Keys(s[..i]) == Keys(s)[..i] && Keys(s[i..]) == Keys(s)[i..]
  {
  }

  /** The position of a present key. */
  lemma KeyIndex(s: seq<Entry>, k: string) returns (i: nat)
    requires HasKey(s, k)
    ensures i < |s| && s[i].0 == k
  {
    KeysDistinct(s);
    var j :| 0 <= j < |Keys(s)| && Keys(s)[j] == k;
    i := j;
  }

  /** `Keys` agrees with `HasKey` and `DistinctKeys`. */
  lemma {:induction false} KeysDistinct(s: seq<Entry>)
    ensures forall k :: HasKey(s, k) <==> k in Keys(s)
    ensures DistinctKeys(s) ==> Distinct(Keys(s))
  {
    if s != [] {
      KeysDistinct(s[1..]);
      assert Keys(s) == [s[0].0] + Keys(s[1..]);
    }
  }

  /** Moving the pair at `i` to the end, possibly with a new value, moves
      its key to the end of the key order. */
  lemma KeysMove(s: seq<Entry>, i: nat, e: Entry)
    requires DistinctKeys(s) && i < |s| && e.0 == s[i].0
    ensures Keys(s[..i] + s[i + 1..] + [e]) == Remove(Keys(s), s[i].0) + [e.0]
  {
    KeysDistinct(s);
    RemoveAt(Keys(s), i);
    KeysSlice(s, i);
    KeysSlice(s, i + 1);
    KeysConcat(s[..i], s[i + 1..]);
    KeysConcat(s[..i] + s[i + 1..], [e]);
  }

  lemma {:induction false} RemoveAt(x: seq<string>, i: nat)
    requires Distinct(x) && i < |x|
    ensures Remove(x, x[i]) == x[..i] + x[i + 1..]
  {
    if i == 0 {
      RemoveAbsent(x[1..], x[0]);
      assert x[..0] + x[1..] == x[1..];
    } else {
      assert x[1..][i - 1] == x[i];
      RemoveAt(x[1..], i - 1);
      assert [x[0]] + (x[1..][..i - 1] + x[1..][i..]) == x[..i] + x[i + 1..];
    }
  }

  lemma {:induction false} RemoveAbsent(x: seq<string>, k: string)
    requires k !in x
    ensures Remove(x, k) == x
  {
    if x != [] {
      RemoveAbsent(x[1..], k);
    }
  }

  lemma {:induction false} RemoveAppend(a: seq<string>, b: seq<string>, k: string)
    ensures Remove(a + b, k) == Remove(a, k) + Remove(b, k)
  {
    if a == [] {
      assert a + b == b;
    } else {
      assert (a + b)[1..] == a[1..] + b;
      RemoveAppend(a[1..], b, k);
    }
  }

  /** Using a key that is among the newest `n` moves it to the end; the
      older keys do not enter the window. */
  lemma NewestTouchPresent(x: seq<string>, k: string, n: nat)
    requires Distinct(x) && k in Newest(x, n)
    ensures Newest(Remove(x, k) + [k], n) == Remove(Newest(x, n), k) + [k]
  {
    var t := Newest(x, n);
    var a := x[..|x| - |t|];
    assert x == a + t;
    var i :| 0 <= i < |t| && t[i] == k;
    assert Remove(a, k) == a && Remove(t, k) == t[..i] + t[i + 1..] by {
      DistinctSplit(a, t);
      RemoveAbsent(a, k);
      RemoveAt(t, i);
    }
    RemoveAppend(a, t, k);
    TouchPresentWindow(x, a, t, k, i, n);
  }

  lemma TouchPresentWindow(x: seq<string>, a: seq<string>, t: seq<string>, k: string, i: nat, n: nat)
    requires t == Newest(x, n) && x == a + t && i < |t|
    requires Remove(a, k) == a && Remove(t, k) == t[..i] + t[i + 1..]
    requires Remove(x, k) == Remove(a, k) + Remove(t, k)
    ensures Newest(Remove(x, k) + [k], n) == Remove(t, k) + [k]
  {
    AppendAssoc(a, Remove(t, k), [k]);
    NewestOfSuffix(a, Remove(t, k) + [k], n);
  }

  /** Using a key that is not among the newest `n` drops the oldest of
      them when the window is full, and appends the key. */
  lemma NewestTouchAbsent(x: seq<string>, k: string, n: nat)
    requires Distinct(x) && k !in Newest(x, n) && n >= 1
    ensures Newest(Remove(x, k) + [k], n)
         == (if |Newest(x, n)| == n then Newest(x, n)[1..] else Newest(x, n)) + [k]
  {
    var t := Newest(x, n);
    var b := Newest(x, n - 1);
    var a := x[..|x| - |b|];
    assert x == a + b;
    assert b == if |t| == n then t[1..] else t;
    assert k !in b;
    RemoveAppend(a, b, k);
    RemoveAbsent(b, k);
    var y := Remove(a, k) + b;
    assert Remove(x, k) + [k] == y + [k];
    if |x| <= n - 1 {
      RemoveAbsent(a, k);
    }
    NewestOfSuffix(Remove(a, k), b, n - 1);
    NewestSnoc(y, k, n);
  }

  /** A window that is already full, or that is everything, is what
      `Newest` keeps. */
  lemma NewestOfSuffix<T>(a: seq<T>, u: seq<T>, n: nat)
    requires |u| == n || (a == [] && |u| <= n)
    ensures Newest(a + u, n) == u
  {
    if a == [] {
      assert a + u == u;
    } else {
      assert (a + u)[|a + u| - n..] == u;
    }
  }

  lemma NewestSnoc<T>(y: seq<T>, e: T, n: nat)
    requires n >= 1
    ensures Newest(y + [e], n) == Newest(y, n - 1) + [e]
  {
    if |y| + 1 > n {
      assert (y + [e])[|y| + 1 - n..] == y[|y| - (n - 1)..] + [e];
    }
  }

  /** The parts of a duplicate-free sequence are duplicate-free and share
      nothing. */
  lemma DistinctSplit(a: seq<string>, t: seq<string>)
    requires Distinct(a + t)
    ensures Distinct(t) && forall y | y in t :: y !in a
  {
    forall p, q | 0 <= p < q < |t| ensures t[p] != t[q] {
      assert t[p] == (a + t)[|a| + p] && t[q] == (a + t)[|a| + q];
    }
    forall y | y in t ensures y !in a {
      var i :| 0 <= i < |t| && t[i] == y;
      forall j | 0 <= j < |a| ensures a[j] != y {
        assert a[j] == (a + t)[j] && y == (a + t)[|a| + i];
      }
    }
  }
}

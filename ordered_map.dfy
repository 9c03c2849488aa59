/** A JavaScript `Map<string, string>` as the sequence of its pairs in
    iteration order, which for a `Map` is insertion order.  The functions
    below are the `Map` primitives the icon cache uses: `get`, `has`,
    `delete`, `set` and `keys().next()`. */
module OrderedMap {
  import opened Wrappers

  type Entry = (string, string)

  /** `map.has(k)`: some pair holds the key. */
  predicate HasKey(s: seq<Entry>, k: string)
    ensures HasKey(s, k) <==> exists i | 0 <= i < |s| :: s[i].0 == k
  {
    s != [] && (s[0].0 == k || HasKey(s[1..], k))
  }

  /** A `Map` never holds a key twice. */
  predicate DistinctKeys(s: seq<Entry>) {
    s == [] || (!HasKey(s[1..], s[0].0) && DistinctKeys(s[1..]))
  }

  /** `map.get(k)`, with `undefined` as `None`. */
  function Find(s: seq<Entry>, k: string): (r: Option<string>)
    ensures r.Some? <==> HasKey(s, k)
    ensures r.Some? ==> (k, r.value) in s
  {
    if s == [] then None
    else if s[0].0 == k then Some(s[0].1)
    else Find(s[1..], k)
  }

  /** `map.delete(k)`: the pair with key `k` goes, the others keep their order. */
  function Delete(s: seq<Entry>, k: string): (r: seq<Entry>)
    ensures Find(r, k) == None
    ensures forall k' {:trigger Find(r, k')} | k' != k :: Find(r, k') == Find(s, k')
    ensures !HasKey(s, k) ==> r == s
    ensures HasKey(s, k) ==> |r| < |s|
    ensures DistinctKeys(s) && HasKey(s, k) ==> |r| == |s| - 1
    ensures DistinctKeys(s) ==> DistinctKeys(r)
  {
    if s == [] then []
    else
      var rest := Delete(s[1..], k);
      if s[0].0 == k then rest
      else
        var r := [s[0]] + rest;
        assert r[1..] == rest;
        assert Find(rest, s[0].0) == Find(s[1..], s[0].0);
        r
  }

  /** `map.set(k, v)`: a present key keeps its place and takes the new
      value; an absent key is appended as the newest pair. */
  function Put(s: seq<Entry>, k: string, v: string): (r: seq<Entry>)
    ensures Find(r, k) == Some(v)
    ensures forall k' {:trigger Find(r, k')} | k' != k :: Find(r, k') == Find(s, k')
    ensures |r| == if HasKey(s, k) then |s| else |s| + 1
    ensures DistinctKeys(s) ==> DistinctKeys(r)
  {
    if s == [] then [(k, v)]
    else if s[0].0 == k then
      var r := [(k, v)] + s[1..];
      assert r[1..] == s[1..];
      r
    else
      var rest := Put(s[1..], k, v);
      var r := [s[0]] + rest;
      assert r[1..] == rest;
      assert Find(rest, s[0].0) == Find(s[1..], s[0].0);
      r
  }

  /** `map.keys().next().value`: the oldest key, `undefined` when empty. */
  function FirstKey(s: seq<Entry>): Option<string> {
    if s == [] then None else Some(s[0].0)
  }

  /** The first key stays first under `set` (of any key, on a non-empty
      map) and under `delete` of any other key: it is the key that has
      been in the map longest. */
  lemma FirstKeyStaysFirst(s: seq<Entry>, k: string, v: string)
    ensures s != [] ==> FirstKey(Put(s, k, v)) == FirstKey(s)
    ensures s == [] ==> FirstKey(Put(s, k, v)) == Some(k)
    ensures s != [] && s[0].0 != k ==> FirstKey(Delete(s, k)) == FirstKey(s)
  {
    if s != [] && s[0].0 != k {
      DeleteCons(s, k);
      PutCons(s, k, v);
    }
  }

  /** Every key stored at a position is present. */
  lemma {:induction false} HasKeyAt(s: seq<Entry>, i: nat)
    requires i < |s|
    ensures HasKey(s, s[i].0)
  {
    if i > 0 {
      HasKeyAt(s[1..], i - 1);
      assert s[1..][i - 1] == s[i];
    }
  }

  /** The keys of a concatenation are the keys of its parts. */
  lemma {:induction false} HasKeyAppend(a: seq<Entry>, b: seq<Entry>, k: string)
    ensures HasKey(a + b, k) <==> HasKey(a, k) || HasKey(b, k)
  {
    if a != [] {
      assert (a + b)[1..] == a[1..] + b;
      HasKeyAppend(a[1..], b, k);
    } else {
      assert a + b == b;
    }
  }

  /** A concatenation has distinct keys exactly when both parts do and no
      key occurs in both. */
  lemma {:induction false} DistinctAppend(a: seq<Entry>, b: seq<Entry>)
    ensures DistinctKeys(a + b) <==>
      DistinctKeys(a) && DistinctKeys(b) && forall k :: HasKey(a, k) ==> !HasKey(b, k)
  {
    if a != [] {
      assert (a + b)[1..] == a[1..] + b;
      DistinctAppend(a[1..], b);
      HasKeyAppend(a[1..], b, a[0].0);
    } else {
      assert a + b == b;
    }
  }

  /** In a map with distinct keys, `get` finds the pair stored at any position. */
  lemma {:induction false} FindAt(s: seq<Entry>, i: nat)
    requires DistinctKeys(s) && i < |s|
    ensures Find(s, s[i].0) == Some(s[i].1)
  {
    if i > 0 {
      assert s[1..][i - 1] == s[i];
      HasKeyAt(s[1..], i - 1);
      FindAt(s[1..], i - 1);
    }
  }

  /** Deleting the key at position `i` cuts exactly that pair out. */
  lemma {:induction false} DeleteAt(s: seq<Entry>, i: nat)
    requires DistinctKeys(s) && i < |s|
    ensures Delete(s, s[i].0) == s[..i] + s[i + 1..]
  {
    if i == 0 {
      DeleteFirst(s);
    } else {
      var t := s[1..];
      assert t[i - 1] == s[i];
      HasKeyAt(t, i - 1);
      DeleteAt(t, i - 1);
      DeleteCons(s, s[i].0);
      ConsSlices(s, i);
    }
  }

  /** `delete` passes over a first pair with another key. */
  lemma DeleteCons(s: seq<Entry>, k: string)
    requires s != [] && s[0].0 != k
    ensures Delete(s, k) == [s[0]] + Delete(s[1..], k)
  {
  }

  lemma ConsSlices<T>(s: seq<T>, i: nat)
    requires 0 < i < |s|
    ensures [s[0]] + (s[1..][..i - 1] + s[1..][i..]) == s[..i] + s[i + 1..]
  {
  }

  /** Deleting the first key drops the oldest pair. */
  lemma DeleteFirst(s: seq<Entry>)
    requires s != [] && DistinctKeys(s)
    ensures Delete(s, s[0].0) == s[1..]
  {
  }

  /** Setting an absent key appends it as the newest pair. */
  lemma {:induction false} PutAbsent(s: seq<Entry>, k: string, v: string)
    requires !HasKey(s, k)
    ensures Put(s, k, v) == s + [(k, v)]
  {
    if s != [] {
      PutAbsent(s[1..], k, v);
      PutCons(s, k, v);
      ConsSnoc(s, (k, v));
    }
  }

  /** `set` passes over a first pair with another key. */
  lemma PutCons(s: seq<Entry>, k: string, v: string)
    requires s != [] && s[0].0 != k
    ensures Put(s, k, v) == [s[0]] + Put(s[1..], k, v)
  {
  }

  lemma AppendAssoc<T>(a: seq<T>, b: seq<T>, c: seq<T>)
    ensures a + b + c == a + (b + c)
  {
  }

  lemma SnocTail<T>(s: seq<T>, e: T)
    requires s != []
    ensures (s + [e])[1..] == s[1..] + [e]
  {
  }

  lemma ConsSnoc<T>(s: seq<T>, e: T)
    requires s != []
    ensures [s[0]] + (s[1..] + [e]) == s + [e]
  {
  }
}

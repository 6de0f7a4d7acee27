/**
  An insertion-ordered dictionary, as Python's `dict` behaves: a sequence of
  key/value pairs in which each key occurs at most once.  Assigning to a key
  that is present replaces its value in place (the key keeps its position);
  assigning to a new key appends it at the end.  Building a dictionary from a
  sequence of pairs (a dict comprehension, `json.loads` of an object, a loop of
  assignments) keeps each key at its first position with its last value.
*/
module OrderedMap {
  import opened Wrappers

  function Keys<K(==), V>(m: seq<(K, V)>): seq<K>
  {
    seq(|m|, i requires 0 <= i < |m| => m[i].0)
  }

  predicate DistinctKeys<K(==), V>(m: seq<(K, V)>)
  {
    forall i, j :: 0 <= i < j < |m| ==> m[i].0 != m[j].0
  }

  /** Position of key `k` in `m`, or `|m|` when `k` is absent. */
  function Find<K(==), V>(m: seq<(K, V)>, k: K): (i: nat)
    ensures i <= |m|
    ensures i < |m| ==> m[i].0 == k
    ensures forall j :: 0 <= j < i ==> m[j].0 != k
  {
    if |m| == 0 then 0
    else if m[0].0 == k then 0
    else 1 + Find(m[1..], k)
  }

  function Lookup<K(==), V>(m: seq<(K, V)>, k: K): Option<V>
  {
    var i := Find(m, k);
    if i < |m| then Some(m[i].1) else None
  }

  lemma {:induction false} FindSameKeys<K, V>(a: seq<(K, V)>, b: seq<(K, V)>, k: K)
    requires Keys(a) == Keys(b)
    ensures Find(a, k) == Find(b, k)
    decreases |a|
  {
    if |a| > 0 {
      assert |b| > 0 && a[0].0 == Keys(a)[0] == b[0].0;
      assert Keys(a[1..]) == Keys(a)[1..] == Keys(b)[1..] == Keys(b[1..]);
      FindSameKeys(a[1..], b[1..], k);
    }
  }

  lemma {:induction false} FindAppend<K, V>(m: seq<(K, V)>, k: K, v: V, k': K)
    requires k' != k
    ensures Find(m + [(k, v)], k') == if Find(m, k') < |m| then Find(m, k') else |m| + 1
    decreases |m|
  {
    if |m| > 0 {
      assert (m + [(k, v)])[1..] == m[1..] + [(k, v)];
      FindAppend(m[1..], k, v, k');
    }
  }

  lemma {:induction false} FindAbsent<K, V>(m: seq<(K, V)>, k: K)
    requires forall j :: 0 <= j < |m| ==> m[j].0 != k
    ensures Find(m, k) == |m|
    decreases |m|
  {
    if |m| > 0 {
      FindAbsent(m[1..], k);
    }
  }

  lemma FindIsMember<K, V>(m: seq<(K, V)>, k: K)
    ensures Find(m, k) < |m| <==> k in Keys(m)
  {
    if Find(m, k) < |m| {
      assert Keys(m)[Find(m, k)] == k;
    }
  }

  /** `d[k] = v` */
  function Put<K(==,!new), V>(m: seq<(K, V)>, k: K, v: V): (r: seq<(K, V)>)
    ensures Lookup(r, k) == Some(v)
    ensures forall k' :: k' != k ==> Lookup(r, k') == Lookup(m, k')
    ensures Find(m, k) < |m| ==> Keys(r) == Keys(m)
    ensures Find(m, k) == |m| ==> Keys(r) == Keys(m) + [k]
    ensures DistinctKeys(m) ==> DistinctKeys(r)
  {
    var i := Find(m, k);
    if i < |m| then
      var r := m[i := (k, v)];
      assert Keys(r) == Keys(m);
      forall k' ensures Find(r, k') == Find(m, k') { FindSameKeys(r, m, k'); }
      r
    else
      var r := m + [(k, v)];
      forall k' | k' != k ensures Lookup(r, k') == Lookup(m, k') {
        FindAppend(m, k, v, k');
        if Find(m, k') < |m| { assert r[Find(m, k')] == m[Find(m, k')]; }
      }
      assert forall j :: 0 <= j < |m| ==> r[j] == m[j];
      assert r[|m|].0 == k;
      assert Keys(r) == Keys(m) + [k];
      r
  }

  /** The dictionary after assigning every pair of `kvs`, in order. */
  function PutAll<K(==,!new), V>(m: seq<(K, V)>, kvs: seq<(K, V)>): seq<(K, V)>
    decreases |kvs|
  {
    if |kvs| == 0 then m
    else
      var n := |kvs| - 1;
      Put(PutAll(m, kvs[..n]), kvs[n].0, kvs[n].1)
  }

  /** The distinct elements of `s`, each at the position of its first occurrence. */
  function FirstOccurrences<T(==)>(s: seq<T>): seq<T>
    decreases |s|
  {
    if |s| == 0 then []
    else
      var n := |s| - 1;
      var p := FirstOccurrences(s[..n]);
      if s[n] in s[..n] then p else p + [s[n]]
  }

  lemma {:induction false} FirstOccurrencesElements<T>(s: seq<T>)
    ensures forall x :: x in FirstOccurrences(s) <==> x in s
    ensures |FirstOccurrences(s)| <= |s|
    decreases |s|
  {
    if |s| > 0 {
      var n := |s| - 1;
      FirstOccurrencesElements(s[..n]);
      assert s == s[..n] + [s[n]];
    }
  }

  lemma {:induction false} FirstOccurrencesOfDistinct<T>(s: seq<T>)
    requires forall i, j :: 0 <= i < j < |s| ==> s[i] != s[j]
    ensures FirstOccurrences(s) == s
    decreases |s|
  {
    if |s| > 0 {
      var n := |s| - 1;
      FirstOccurrencesOfDistinct(s[..n]);
      assert s[n] !in s[..n];
      assert s[..n] + [s[n]] == s;
    }
  }

  /** A key absent from `kvs` keeps the value it had before. */
  lemma {:induction false} PutAllOther<K(!new), V>(m: seq<(K, V)>, kvs: seq<(K, V)>, k: K)
    requires forall j :: 0 <= j < |kvs| ==> kvs[j].0 != k
    ensures Lookup(PutAll(m, kvs), k) == Lookup(m, k)
    decreases |kvs|
  {
    if |kvs| > 0 {
      PutAllOther(m, kvs[..|kvs| - 1], k);
    }
  }

  /** A key of `kvs` maps to the value of its last occurrence in `kvs`. */
  lemma {:induction false} PutAllLast<K(!new), V>(m: seq<(K, V)>, kvs: seq<(K, V)>, i: nat)
    requires i < |kvs|
    requires forall j :: i < j < |kvs| ==> kvs[j].0 != kvs[i].0
    ensures Lookup(PutAll(m, kvs), kvs[i].0) == Some(kvs[i].1)
    decreases |kvs|
  {
    var n := |kvs| - 1;
    if i < n {
      PutAllLast(m, kvs[..n], i);
    }
  }

  lemma FirstOccurrencesSnoc<T>(s: seq<T>, x: T)
    ensures FirstOccurrences(s + [x]) == if x in s then FirstOccurrences(s) else FirstOccurrences(s) + [x]
  {
    assert (s + [x])[..|s|] == s;
  }

  lemma KeysSnoc<K, V>(m: seq<(K, V)>, kv: (K, V))
    ensures Keys(m + [kv]) == Keys(m) + [kv.0]
  {
  }

  lemma {:induction false} PutAllDistinct<K(!new), V>(m: seq<(K, V)>, kvs: seq<(K, V)>)
    requires DistinctKeys(m)
    ensures DistinctKeys(PutAll(m, kvs))
    decreases |kvs|
  {
    if |kvs| > 0 {
      PutAllDistinct(m, kvs[..|kvs| - 1]);
    }
  }

  /** Keys keep the order in which they were first assigned. */
  lemma {:induction false} PutAllKeys<K(!new), V>(m: seq<(K, V)>, kvs: seq<(K, V)>)
    requires DistinctKeys(m)
    ensures Keys(PutAll(m, kvs)) == FirstOccurrences(Keys(m) + Keys(kvs))
    decreases |kvs|
  {
    if |kvs| == 0 {
      assert Keys(m) + Keys(kvs) == Keys(m);
      FirstOccurrencesOfDistinct(Keys(m));
    } else {
      var n := |kvs| - 1;
      var p := PutAll(m, kvs[..n]);
      var k := kvs[n].0;
      PutAllKeys(m, kvs[..n]);
      var prefix := Keys(m) + Keys(kvs[..n]);
      assert kvs == kvs[..n] + [kvs[n]];
      KeysSnoc(kvs[..n], kvs[n]);
      assert Keys(m) + Keys(kvs) == prefix + [k];
      FirstOccurrencesSnoc(prefix, k);
      FirstOccurrencesElements(prefix);
      FindIsMember(p, k);
    }
  }

  /** Rebuilding a dictionary from its own pairs gives it back unchanged. */
  lemma {:induction false} PutAllOfDistinct<K(!new), V>(m: seq<(K, V)>)
    requires DistinctKeys(m)
    ensures PutAll([], m) == m
    decreases |m|
  {
    if |m| > 0 {
      var n := |m| - 1;
      PutAllOfDistinct(m[..n]);
      FindAbsent(m[..n], m[n].0);
      assert m[..n] + [m[n]] == m;
    }
  }

  lemma {:induction false} PutAllSize<K(!new), V>(m: seq<(K, V)>, kvs: seq<(K, V)>)
    ensures |PutAll(m, kvs)| <= |m| + |kvs|
    decreases |kvs|
  {
    if |kvs| > 0 {
      PutAllSize(m, kvs[..|kvs| - 1]);
    }
  }
}

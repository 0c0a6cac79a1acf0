/**
 What an LRU cache does, on plain sequences: the elements in order of recency, most recent first, no key
 twice.
 */
module LruSpec {

  function Keys<K, V>(s: seq<(K, V)>): (r: seq<K>)
    ensures |r| == |s| && forall i | 0 <= i < |s| :: r[i] == s[i].0
  {
    seq(|s|, i requires 0 <= i < |s| => s[i].0)
  }

  ghost predicate DistinctKeys<K, V>(s: seq<(K, V)>) {
    forall i, j | 0 <= i < j < |s| :: s[i].0 != s[j].0
  }

  function Without<K(==), V>(s: seq<(K, V)>, k: K): (r: seq<(K, V)>)
    ensures |r| <= |s|
  {
    if s == [] then [] else (if s[0].0 == k then [] else [s[0]]) + Without(s[1..], k)
  }

  function Take<T>(s: seq<T>, n: nat): (r: seq<T>)
    ensures |r| <= n && r <= s
    ensures |s| <= n ==> r == s
  {
    if |s| <= n then s else s[..n]
  }

  /** Put an element in front, whether or not its key is there already, within the capacity. */
  function Touch<K(==), V>(s: seq<(K, V)>, capacity: nat, k: K, v: V): seq<(K, V)> {
    Take([(k, v)] + Without(s, k), capacity)
  }

  predicate Has<K(==), V>(s: seq<(K, V)>, k: K) {
    exists i | 0 <= i < |s| :: s[i].0 == k
  }

  function Reverse<T>(s: seq<T>): (r: seq<T>)
    ensures |r| == |s| && forall i | 0 <= i < |s| :: r[i] == s[|s| - 1 - i]
  {
    seq(|s|, i requires 0 <= i < |s| => s[|s| - 1 - i])
  }

  lemma {:induction false} WithoutAbsent<K, V>(s: seq<(K, V)>, k: K)
    requires forall p <- s :: p.0 != k
    ensures Without(s, k) == s
  {
    if s != [] {
      assert s[0] in s;
      WithoutAbsent(s[1..], k);
    }
  }

  lemma {:induction false} WithoutMembers<K, V>(s: seq<(K, V)>, k: K, p: (K, V))
    ensures p in Without(s, k) <==> p in s && p.0 != k
  {
    if s != [] {
      WithoutMembers(s[1..], k, p);
    }
  }

  /** With distinct keys, dropping a key is cutting out its position. */
  lemma {:induction false} WithoutAt<K, V>(s: seq<(K, V)>, i: nat)
    requires DistinctKeys(s) && i < |s|
    ensures Without(s, s[i].0) == s[..i] + s[i + 1..]
  {
    if i == 0 {
      WithoutAbsent(s[1..], s[0].0);
    } else {
      WithoutAt(s[1..], i - 1);
      assert s[..i] == [s[0]] + s[1..][..i - 1];
      assert s[1..][i..] == s[i + 1..];
    }
  }

  lemma {:induction false} WithoutAppend<K, V>(a: seq<(K, V)>, b: seq<(K, V)>, k: K)
    ensures Without(a + b, k) == Without(a, k) + Without(b, k)
  {
    if a == [] {
      assert a + b == b;
    } else {
      assert (a + b)[1..] == a[1..] + b;
      WithoutAppend(a[1..], b, k);
    }
  }

  lemma {:induction false} WithoutKeepsDistinct<K, V>(s: seq<(K, V)>, k: K)
    requires DistinctKeys(s)
    ensures DistinctKeys(Without(s, k))
  {
    if s != [] {
      WithoutKeepsDistinct(s[1..], k);
      var r := Without(s[1..], k);
      forall j | 0 <= j < |r| ensures r[j].0 != s[0].0 {
        WithoutMembers(s[1..], k, r[j]);
      }
    }
  }

  lemma InFrontIsDistinct<K, V>(s: seq<(K, V)>, k: K, v: V)
    requires DistinctKeys(s)
    ensures DistinctKeys([(k, v)] + Without(s, k))
  {
    WithoutKeepsDistinct(s, k);
    var r := Without(s, k);
    forall i | 0 <= i < |r| ensures r[i].0 != k {
      WithoutMembers(s, k, r[i]);
    }
  }

  // ---- History: what is held depends only on the order of the last touches ----

  /** The elements that were ever touched, most recent first, each with the value of its last touch. */
  function Recent<K(==), V>(touches: seq<(K, V)>): seq<(K, V)> {
    if touches == [] then []
    else var (k, v) := touches[|touches| - 1]; [(k, v)] + Without(Recent(touches[..|touches| - 1]), k)
  }

  /** The contents after touching the given elements one after the other, starting from `s`. */
  function TouchAll<K(==), V>(s: seq<(K, V)>, capacity: nat, touches: seq<(K, V)>): seq<(K, V)> {
    if touches == [] then s
    else
      var (k, v) := touches[|touches| - 1];
      Touch(TouchAll(s, capacity, touches[..|touches| - 1]), capacity, k, v)
  }

  lemma {:induction false} RecentIsDistinct<K, V>(touches: seq<(K, V)>)
    ensures DistinctKeys(Recent(touches))
  {
    if touches != [] {
      var (k, v) := touches[|touches| - 1];
      RecentIsDistinct(touches[..|touches| - 1]);
      InFrontIsDistinct(Recent(touches[..|touches| - 1]), k, v);
    }
  }

  lemma WithoutLength<K, V>(s: seq<(K, V)>, k: K)
    requires DistinctKeys(s)
    ensures |Without(s, k)| >= |s| - 1
  {
    if i :| 0 <= i < |s| && s[i].0 == k {
      WithoutAt(s, i);
    } else {
      WithoutAbsent(s, k);
    }
  }

  /** Dropping the tail beyond the capacity early makes no difference. */
  lemma TouchOfPrefix<K, V>(s: seq<(K, V)>, capacity: nat, k: K, v: V)
    requires DistinctKeys(s)
    ensures Touch(Take(s, capacity), capacity, k, v) == Touch(s, capacity, k, v)
  {
    if |s| > capacity {
      var a, b := s[..capacity], s[capacity..];
      assert s == a + b;
      WithoutAppend(a, b, k);
      WithoutLength(a, k);
      var w := [(k, v)] + Without(a, k);
      assert [(k, v)] + Without(s, k) == w + Without(b, k);
      TakePrefix(w, Without(b, k), capacity);
    }
  }

  lemma TakePrefix<T>(a: seq<T>, b: seq<T>, n: nat)
    requires |a| >= n
    ensures Take(a + b, n) == Take(a, n)
  {
    assert (a + b)[..n] == a[..n];
  }

  lemma {:induction false} TouchesKeepMostRecent<K, V>(capacity: nat, touches: seq<(K, V)>)
    ensures TouchAll([], capacity, touches) == Take(Recent(touches), capacity)
  {
    if touches != [] {
      var before := touches[..|touches| - 1];
      var (k, v) := touches[|touches| - 1];
      TouchesKeepMostRecent(capacity, before);
      RecentIsDistinct(before);
      TouchOfPrefix(Recent(before), capacity, k, v);
    }
  }

  /** The operations that move elements; a Get that misses, or any other operation on the values, does not. */
  datatype Access<K, V> = Set(key: K, value: V) | Get(key: K)

  function Lookup<K(==), V>(s: seq<(K, V)>, k: K): V
    requires Has(s, k)
  {
    if s[0].0 == k then s[0].1 else Lookup(s[1..], k)
  }

  /** The touch an operation amounts to, if it is one. */
  function TouchOf<K(==), V>(s: seq<(K, V)>, a: Access<K, V>): (r: seq<(K, V)>)
    ensures |r| <= 1
  {
    match a
    case Set(k, v) => [(k, v)]
    case Get(k) => if Has(s, k) then [(k, Lookup(s, k))] else []
  }

  function AccessAll<K(==), V>(capacity: nat, run: seq<Access<K, V>>): seq<(K, V)> {
    if run == [] then []
    else
      var s := AccessAll(capacity, run[..|run| - 1]);
      var t := TouchOf(s, run[|run| - 1]);
      if t == [] then s else Touch(s, capacity, t[0].0, t[0].1)
  }

  function TouchHistory<K(==), V>(capacity: nat, run: seq<Access<K, V>>): seq<(K, V)> {
    if run == [] then []
    else
      var before := run[..|run| - 1];
      TouchHistory(capacity, before) + TouchOf(AccessAll(capacity, before), run[|run| - 1])
  }

  /**
   Over any run of Set and Get at a fixed capacity, the cache holds exactly the most recently touched
   distinct keys, as many as fit, each with the value of its last touch.
   */
  lemma {:induction false} CacheHoldsMostRecent<K, V>(capacity: nat, run: seq<Access<K, V>>)
    ensures AccessAll(capacity, run) == Take(Recent(TouchHistory(capacity, run)), capacity)
  {
    AccessesAreTouches(capacity, run);
    TouchesKeepMostRecent(capacity, TouchHistory(capacity, run));
  }

  lemma {:induction false} AccessesAreTouches<K, V>(capacity: nat, run: seq<Access<K, V>>)
    ensures AccessAll(capacity, run) == TouchAll([], capacity, TouchHistory(capacity, run))
  {
    if run != [] {
      var before := run[..|run| - 1];
      AccessesAreTouches(capacity, before);
      var h, t := TouchHistory(capacity, before), TouchOf(AccessAll(capacity, before), run[|run| - 1]);
      if t == [] {
        assert h + t == h;
      } else {
        assert (h + t)[..|h + t| - 1] == h && (h + t)[|h + t| - 1] == t[0];
      }
    }
  }

  /** Touching distinct keys, no more than fit, from any contents: they are all there, latest first. */
  lemma {:induction false} FreshTouchesStay<K, V>(s: seq<(K, V)>, capacity: nat, touches: seq<(K, V)>)
    requires DistinctKeys(s) && DistinctKeys(touches) && |touches| <= capacity
    ensures Reverse(touches) <= TouchAll(s, capacity, touches) && DistinctKeys(TouchAll(s, capacity, touches))
  {
    if touches != [] {
      var before := touches[..|touches| - 1];
      var (k, v) := touches[|touches| - 1];
      FreshTouchesStay(s, capacity, before);
      TouchOnTop(TouchAll(s, capacity, before), Reverse(before), capacity, k, v);
      assert Reverse(touches) == [(k, v)] + Reverse(before);
    }
  }

  lemma TouchOnTop<K, V>(t: seq<(K, V)>, top: seq<(K, V)>, capacity: nat, k: K, v: V)
    requires DistinctKeys(t) && top <= t && |top| < capacity && !Has(top, k)
    ensures [(k, v)] + top <= Touch(t, capacity, k, v) && DistinctKeys(Touch(t, capacity, k, v))
  {
    var rest := t[|top|..];
    assert t == top + rest;
    WithoutAppend(top, rest, k);
    WithoutAbsent(top, k);
    InFrontIsDistinct(t, k, v);
    TakeKeepsTop([(k, v)] + top, Without(rest, k), capacity);
    assert [(k, v)] + Without(t, k) == [(k, v)] + top + Without(rest, k);
  }

  lemma TakeKeepsTop<T>(top: seq<T>, rest: seq<T>, n: nat)
    requires |top| <= n
    ensures top <= Take(top + rest, n)
  {
  }
}

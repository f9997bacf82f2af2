/** The stable `sort_by_key` of Rust's slices. */
module Sorting {

  function Insert<T>(x: T, s: seq<T>, key: T -> int): seq<T> {
    if s == [] || key(x) <= key(s[0]) then [x] + s
    else [s[0]] + Insert(x, s[1..], key)
  }

  function SortBy<T>(s: seq<T>, key: T -> int): seq<T> {
    if s == [] then [] else Insert(s[0], SortBy(s[1..], key), key)
  }

  function Take<T>(s: seq<T>, n: nat): (r: seq<T>)
    ensures |r| == if n < |s| then n else |s|
    ensures r <= s
  {
    if n < |s| then s[..n] else s
  }

  ghost predicate Ordered<T>(s: seq<T>, key: T -> int) {
    forall i, j :: 0 <= i < j < |s| ==> key(s[i]) <= key(s[j])
  }

  /** The elements with one given key, in the order they stand in. */
  ghost function WithKey<T>(s: seq<T>, key: T -> int, k: int): seq<T> {
    if s == [] then []
    else (if key(s[0]) == k then [s[0]] else []) + WithKey(s[1..], key, k)
  }

  lemma {:induction false} InsertKeeps<T>(x: T, s: seq<T>, key: T -> int)
    ensures multiset(Insert(x, s, key)) == multiset{x} + multiset(s)
  {
    if s != [] && key(x) > key(s[0]) {
      InsertKeeps(x, s[1..], key);
      assert s == [s[0]] + s[1..];
    }
  }

  lemma {:induction false} InsertSorts<T>(x: T, s: seq<T>, key: T -> int)
    requires Ordered(s, key)
    ensures Ordered(Insert(x, s, key), key)
  {
    if s != [] && key(x) > key(s[0]) {
      var r := Insert(x, s[1..], key);
      InsertSorts(x, s[1..], key);
      forall j | 0 <= j < |r|
        ensures key(s[0]) <= key(r[j])
      {
        InsertKeeps(x, s[1..], key);
        assert r[j] in multiset(r);
        assert r[j] == x || r[j] in s[1..];
      }
    }
  }

  /** Sorting orders a list and keeps every element as often as it was there. */
  lemma {:induction false} SortBySorts<T>(s: seq<T>, key: T -> int)
    ensures Ordered(SortBy(s, key), key)
    ensures multiset(SortBy(s, key)) == multiset(s)
    ensures |SortBy(s, key)| == |s|
  {
    if s == [] {
    } else {
      SortBySorts(s[1..], key);
      InsertSorts(s[0], SortBy(s[1..], key), key);
      InsertKeeps(s[0], SortBy(s[1..], key), key);
      assert s == [s[0]] + s[1..];
    }
    assert |multiset(SortBy(s, key))| == |SortBy(s, key)|;
  }

  lemma {:induction false} InsertStable<T>(x: T, s: seq<T>, key: T -> int, k: int)
    requires Ordered(s, key)
    ensures WithKey(Insert(x, s, key), key, k) == WithKey([x] + s, key, k)
  {
    if s == [] || key(x) <= key(s[0]) {
      assert Insert(x, s, key) == [x] + s;
    } else {
      var y, u := s[0], s[1..];
      InsertStable(x, u, key, k);
      assert s == [y] + u && Insert(x, s, key) == [y] + Insert(x, u, key);
      hide WithKey, Insert, Ordered;
      WithKeyCons(y, Insert(x, u, key), key, k);
      WithKeyCons(x, u, key, k);
      WithKeyCons(y, u, key, k);
      WithKeyCons(x, s, key, k);
    }
  }

  lemma {:induction false} WithKeyCons<T>(y: T, s: seq<T>, key: T -> int, k: int)
    ensures WithKey([y] + s, key, k) == (if key(y) == k then [y] else []) + WithKey(s, key, k)
  {
    assert ([y] + s)[1..] == s;
  }

  /** Elements with equal keys keep their order. */
  lemma {:induction false} SortByStable<T>(s: seq<T>, key: T -> int, k: int)
    ensures WithKey(SortBy(s, key), key, k) == WithKey(s, key, k)
  {
    if s == [] {
    } else {
      var r := SortBy(s[1..], key);
      SortByStable(s[1..], key, k);
      SortBySorts(s[1..], key);
      InsertStable(s[0], r, key, k);
      assert ([s[0]] + r)[1..] == r;
    }
  }

  lemma {:induction false} WithKeyAppend<T>(a: seq<T>, b: seq<T>, key: T -> int, k: int)
    ensures WithKey(a + b, key, k) == WithKey(a, key, k) + WithKey(b, key, k)
  {
    if a == [] {
      assert a + b == b;
    } else {
      var h, u, v := if key(a[0]) == k then [a[0]] else [], WithKey(a[1..], key, k), WithKey(b, key, k);
      WithKeyAppend(a[1..], b, key, k);
      assert (a + b)[1..] == a[1..] + b;
      assert WithKey(a + b, key, k) == h + (u + v);
      hide WithKey;
      assert h + (u + v) == (h + u) + v;
    }
  }

  lemma {:induction false} WithKeyUniform<T>(s: seq<T>, key: T -> int, k: int, l: int)
    requires forall x :: x in s ==> key(x) == l
    ensures WithKey(s, key, k) == if k == l then s else []
  {
    if s == [] {
    } else {
      WithKeyUniform(s[1..], key, k, l);
      assert s == [s[0]] + s[1..];
    }
  }

  lemma {:induction false} InsertBehind<T>(x: T, a: seq<T>, b: seq<T>, key: T -> int)
    requires forall y :: y in a ==> key(y) < key(x)
    requires forall y :: y in b ==> key(y) == key(x)
    ensures Insert(x, a + b, key) == a + [x] + b
  {
    if a == [] {
      assert a + b == b;
    } else {
      InsertBehind(x, a[1..], b, key);
      assert (a + b)[1..] == a[1..] + b;
      assert a == [a[0]] + a[1..];
    }
  }

  lemma {:induction false} WithKeyHasKey<T>(s: seq<T>, key: T -> int, k: int)
    ensures forall x :: x in WithKey(s, key, k) ==> key(x) == k
  {
    if s == [] {
    } else {
      WithKeyHasKey(s[1..], key, k);
    }
  }

  lemma {:induction false} InsertInFront<T>(x: T, s: seq<T>, key: T -> int)
    requires forall y :: y in s ==> key(x) <= key(y)
    ensures Insert(x, s, key) == [x] + s
  {
  }

  lemma {:induction false} InsertBetween<T>(x: T, a: seq<T>, b: seq<T>, key: T -> int, lo: int, hi: int)
    requires lo < hi && (forall y :: y in a ==> key(y) == lo) && (forall y :: y in b ==> key(y) == hi)
    ensures key(x) == lo ==> Insert(x, a + b, key) == ([x] + a) + b
    ensures key(x) == hi ==> Insert(x, a + b, key) == a + ([x] + b)
  {
    hide Insert;
    if key(x) == lo {
      InsertInFront(x, a + b, key);
      assert [x] + (a + b) == ([x] + a) + b;
    } else if key(x) == hi {
      InsertBehind(x, a, b, key);
      assert a + [x] + b == a + ([x] + b);
    }
  }

  /** With only two keys around, sorting splits a list into two groups. */
  lemma {:induction false} SortTwoKeys<T>(s: seq<T>, key: T -> int, lo: int, hi: int)
    requires lo < hi && forall x :: x in s ==> key(x) == lo || key(x) == hi
    ensures SortBy(s, key) == WithKey(s, key, lo) + WithKey(s, key, hi)
  {
    if s == [] {
    } else {
      var x, a, b := s[0], WithKey(s[1..], key, lo), WithKey(s[1..], key, hi);
      SortTwoKeys(s[1..], key, lo, hi);
      WithKeyHasKey(s[1..], key, lo);
      WithKeyHasKey(s[1..], key, hi);
      assert x in s;
      assert SortBy(s, key) == Insert(x, a + b, key);
      assert WithKey(s, key, lo) == if key(x) == lo then [x] + a else a;
      assert WithKey(s, key, hi) == if key(x) == hi then [x] + b else b;
      hide WithKey, SortBy, Insert;
      InsertBetween(x, a, b, key, lo, hi);
    }
  }

  lemma {:induction false} GroupOfTwo<T>(a: seq<T>, b: seq<T>, key: T -> int, k: int, l: int)
    requires k != l
    requires (forall x :: x in a ==> key(x) == l) && (forall x :: x in b ==> key(x) == k)
    ensures WithKey(a + b, key, k) == b && WithKey(a + b, key, l) == a
  {
    WithKeyAppend(a, b, key, k);
    WithKeyAppend(a, b, key, l);
    WithKeyUniform(a, key, k, l);
    WithKeyUniform(a, key, l, l);
    WithKeyUniform(b, key, k, k);
    WithKeyUniform(b, key, l, k);
  }

  /** Elements with the larger key in front and in the middle end up behind the others. */
  lemma {:induction false} SortMovesBack<T>(front: seq<T>, f: seq<T>, back: seq<T>, z: T, key: T -> int, lo: int,
                                            hi: int)
    requires lo < hi && key(z) == lo && forall x :: x in f ==> key(x) == lo
    requires forall x :: x in front || x in back ==> key(x) == hi
    ensures SortBy(front + f + back + [z], key) == f + [z] + (front + back)
  {
    var p, q := front + f, back + [z];
    assert front + f + back + [z] == p + q;
    GroupOfTwo(front, f, key, lo, hi);
    GroupOfTwo(back, [z], key, lo, hi);
    WithKeyAppend(p, q, key, lo);
    WithKeyAppend(p, q, key, hi);
    assert forall x :: x in p + q ==> x in front || x in f || x in back || x == z;
    SortTwoKeys(p + q, key, lo, hi);
  }

  lemma {:induction false} SameMembers<T>(a: seq<T>, b: seq<T>)
    requires multiset(a) == multiset(b)
    ensures forall x :: x in a <==> x in b
    ensures |a| == |b|
  {
    forall x
      ensures x in a <==> x in b
    {
      assert x in a <==> x in multiset(a);
      assert x in b <==> x in multiset(b);
    }
    assert |multiset(a)| == |a| && |multiset(b)| == |b|;
  }
}

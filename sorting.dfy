/** The order in which the overview lists servers and accounts.

    Both lists are sorted with Rust's `slice::sort_by_key`, keyed by a
    `String`. Rust orders strings lexicographically by their UTF-8 bytes,
    which is the same as ordering their code points, and a proper prefix
    comes first. `sort_by_key` is a stable sort, so its result is fully
    determined by its input: it is the sorted permutation that keeps equal
    keys in their input order. `StableSort` is that result, defined by
    insertion; `SortByKey` sorts an array in place and is proved to produce
    it.

    The overview is built from the sorted lists by mapping each element to
    its entries and concatenating them, so the module also holds `Map`,
    `FlatMap` and `Sum` with the facts that carry sortedness, permutation
    and length through them. */
module Sorting {

  /** `a < b` on Rust strings. */
  predicate Less(a: string, b: string)
    decreases |b|
  {
    b != [] && (a == [] || a[0] < b[0] || (a[0] == b[0] && Less(a[1..], b[1..])))
  }

  lemma {:induction false} LessIrreflexive(a: string)
    ensures !Less(a, a)
    decreases |a|
  {
    if a != [] {
      LessIrreflexive(a[1..]);
    }
  }

  lemma {:induction false} LessAsymmetric(a: string, b: string)
    requires Less(a, b)
    ensures !Less(b, a)
    decreases |a|
  {
    if a != [] && a[0] == b[0] {
      LessAsymmetric(a[1..], b[1..]);
    }
  }

  /** "Not less" is transitive: a <= b and b <= c give a <= c. */
  lemma {:induction false} NotLessTransitive(a: string, b: string, c: string)
    requires !Less(b, a) && !Less(c, b)
    ensures !Less(c, a)
    decreases |a|
  {
    if a != [] && b != [] && c != [] && a[0] == b[0] && b[0] == c[0] {
      NotLessTransitive(a[1..], b[1..], c[1..]);
    }
  }

  /** Any two strings are equal or one is less than the other. */
  lemma {:induction false} LessTrichotomous(a: string, b: string)
    ensures a == b || Less(a, b) || Less(b, a)
    decreases |a|
  {
    if a != [] && b != [] && a[0] == b[0] {
      LessTrichotomous(a[1..], b[1..]);
      assert a == [a[0]] + a[1..] && b == [b[0]] + b[1..];
    }
  }

  /** `s` is in non-decreasing order of `key`. */
  predicate Ordered<T>(s: seq<T>, key: T -> string)
  {
    forall i, j :: 0 <= i < j < |s| ==> !Less(key(s[j]), key(s[i]))
  }

  /** The elements of `s` whose key is `k`, in their order in `s`. */
  function WithKey<T>(s: seq<T>, key: T -> string, k: string): seq<T>
  {
    if s == [] then []
    else WithKey(s[..|s| - 1], key, k) + (if key(s[|s| - 1]) == k then [s[|s| - 1]] else [])
  }

  /** Puts `x` after every element whose key is not greater than its own. */
  function Insert<T>(s: seq<T>, x: T, key: T -> string): seq<T>
  {
    if s == [] || !Less(key(x), key(s[|s| - 1])) then s + [x]
    else Insert(s[..|s| - 1], x, key) + [s[|s| - 1]]
  }

  /** What `sort_by_key` leaves in a vector that held `s`. */
  function StableSort<T>(s: seq<T>, key: T -> string): seq<T>
  {
    if s == [] then [] else Insert(StableSort(s[..|s| - 1], key), s[|s| - 1], key)
  }

  lemma {:induction false} InsertPermutation<T>(s: seq<T>, x: T, key: T -> string)
    ensures multiset(Insert(s, x, key)) == multiset(s) + multiset{x}
  {
    if s != [] && Less(key(x), key(s[|s| - 1])) {
      InsertPermutation(s[..|s| - 1], x, key);
      assert s == s[..|s| - 1] + [s[|s| - 1]];
    }
  }

  lemma {:induction false} InsertOrdered<T>(s: seq<T>, x: T, key: T -> string)
    requires Ordered(s, key)
    ensures Ordered(Insert(s, x, key), key)
  {
    var r := Insert(s, x, key);
    if s == [] {
    } else if !Less(key(x), key(s[|s| - 1])) {
      var last := s[|s| - 1];
      forall i, j | 0 <= i < j < |r|
        ensures !Less(key(r[j]), key(r[i]))
      {
        if j == |s| {
          if i < |s| - 1 {
            NotLessTransitive(key(s[i]), key(last), key(x));
          }
        }
      }
    } else {
      var init, last := s[..|s| - 1], s[|s| - 1];
      InsertOrdered(init, x, key);
      var r0 := Insert(init, x, key);
      InsertPermutation(init, x, key);
      LessAsymmetric(key(x), key(last));
      forall i, j | 0 <= i < j < |r|
        ensures !Less(key(r[j]), key(r[i]))
      {
        if j == |r| - 1 {
          assert r[i] in multiset(r0);
          if r[i] != x {
            assert r[i] in multiset(init);
            var k :| 0 <= k < |init| && init[k] == r[i];
            assert s[k] == r[i];
          }
        } else {
          assert r[i] == r0[i] && r[j] == r0[j];
        }
      }
    }
  }

  lemma {:induction false} InsertWithKey<T>(s: seq<T>, x: T, key: T -> string, k: string)
    ensures WithKey(Insert(s, x, key), key, k)
         == WithKey(s, key, k) + (if key(x) == k then [x] else [])
  {
    var r := Insert(s, x, key);
    if s == [] || !Less(key(x), key(s[|s| - 1])) {
      assert r[..|r| - 1] == s;
    } else {
      var init, last := s[..|s| - 1], s[|s| - 1];
      InsertWithKey(init, x, key, k);
      assert r[..|r| - 1] == Insert(init, x, key);
      LessIrreflexive(key(x));
      assert key(x) != key(last);
    }
  }

  /** The sorted list is a permutation of the input. */
  lemma {:induction false} StableSortPermutation<T>(s: seq<T>, key: T -> string)
    ensures multiset(StableSort(s, key)) == multiset(s)
  {
    if s != [] {
      StableSortPermutation(s[..|s| - 1], key);
      InsertPermutation(StableSort(s[..|s| - 1], key), s[|s| - 1], key);
      assert s == s[..|s| - 1] + [s[|s| - 1]];
    }
  }

  /** The sorted list is in key order. */
  lemma {:induction false} StableSortOrdered<T>(s: seq<T>, key: T -> string)
    ensures Ordered(StableSort(s, key), key)
  {
    if s != [] {
      StableSortOrdered(s[..|s| - 1], key);
      InsertOrdered(StableSort(s[..|s| - 1], key), s[|s| - 1], key);
    }
  }

  /** Elements with equal keys keep their input order. */
  lemma {:induction false} StableSortIsStable<T>(s: seq<T>, key: T -> string, k: string)
    ensures WithKey(StableSort(s, key), key, k) == WithKey(s, key, k)
  {
    if s != [] {
      StableSortIsStable(s[..|s| - 1], key, k);
      InsertWithKey(StableSort(s[..|s| - 1], key), s[|s| - 1], key, k);
    }
  }

  lemma {:induction false} StableSortLength<T>(s: seq<T>, key: T -> string)
    ensures |StableSort(s, key)| == |s|
  {
    StableSortPermutation(s, key);
    assert |multiset(StableSort(s, key))| == |multiset(s)|;
  }

  /** Every element `WithKey` picks is in `s` and has key `k`. */
  lemma {:induction false} WithKeyMembers<T>(s: seq<T>, key: T -> string, k: string)
    ensures forall y :: y in WithKey(s, key, k) ==> y in s && key(y) == k
  {
    if s != [] {
      WithKeyMembers(s[..|s| - 1], key, k);
      assert forall y :: y in s[..|s| - 1] ==> y in s;
    }
  }

  /** Two key-ordered lists that agree on the elements of every key, in
      order, are the same list. */
  lemma {:induction false} OrderedByWithKey<T>(t: seq<T>, u: seq<T>, key: T -> string)
    requires Ordered(t, key) && Ordered(u, key)
    requires forall k :: WithKey(t, key, k) == WithKey(u, key, k)
    ensures t == u
    decreases |t| + |u|
  {
    if u != [] {
      assert WithKey(t, key, key(u[|u| - 1])) == WithKey(u, key, key(u[|u| - 1]));
    }
    if t != [] {
      assert WithKey(t, key, key(t[|t| - 1])) == WithKey(u, key, key(t[|t| - 1]));
    }
    if t != [] && u != [] {
      var x, y := t[|t| - 1], u[|u| - 1];
      assert WithKey(u, key, key(y)) == WithKey(u[..|u| - 1], key, key(y)) + [y];
      assert WithKey(t, key, key(x)) == WithKey(t[..|t| - 1], key, key(x)) + [x];
      LastKeyIsMaximal(t, key, key(y));
      LastKeyIsMaximal(u, key, key(x));
      LessTrichotomous(key(x), key(y));
      var k0 := key(x);
      var ti, ui := t[..|t| - 1], u[..|u| - 1];
      var wt, wu := WithKey(ti, key, k0), WithKey(ui, key, k0);
      assert WithKey(t, key, k0) == wt + [x] && WithKey(u, key, k0) == wu + [y];
      assert (wt + [x])[..|wt|] == wt && (wu + [y])[..|wu|] == wu;
      forall k
        ensures WithKey(ti, key, k) == WithKey(ui, key, k)
      {
        assert WithKey(t, key, k) == WithKey(u, key, k);
        if k != k0 {
          var a, b := WithKey(ti, key, k), WithKey(ui, key, k);
          assert WithKey(t, key, k) == a + [] == a;
          assert WithKey(u, key, k) == b + [] == b;
        } else {
          assert wt == (wt + [x])[..|wt|] == (wu + [y])[..|wu|] == wu;
        }
      }
      assert Ordered(ti, key) by {
        forall i, j | 0 <= i < j < |ti| ensures !Less(key(ti[j]), key(ti[i])) {
          assert ti[i] == t[i] && ti[j] == t[j];
        }
      }
      assert Ordered(ui, key) by {
        forall i, j | 0 <= i < j < |ui| ensures !Less(key(ui[j]), key(ui[i])) {
          assert ui[i] == u[i] && ui[j] == u[j];
        }
      }
      OrderedByWithKey(ti, ui, key);
      assert t == ti + [x] && u == ui + [y];
    }
  }

  /** In a key-ordered `t`, every key that `t` holds is at most the key of
      its last element. */
  lemma LastKeyIsMaximal<T>(t: seq<T>, key: T -> string, k: string)
    requires t != [] && Ordered(t, key)
    requires WithKey(t, key, k) != []
    ensures !Less(key(t[|t| - 1]), k)
  {
    WithKeyMembers(t, key, k);
    var z := WithKey(t, key, k)[0];
    assert z in t && key(z) == k;
    var i :| 0 <= i < |t| && t[i] == z;
    if i < |t| - 1 {
      assert !Less(key(t[|t| - 1]), key(t[i]));
    } else {
      LessIrreflexive(k);
    }
  }

  /** `StableSort` is the only key-ordered list that keeps the elements of
      each key in their input order, so any stable sort by the same key,
      merge sort included, leaves the same list. */
  lemma StableSortUnique<T>(s: seq<T>, t: seq<T>, key: T -> string)
    requires Ordered(t, key)
    requires forall k :: WithKey(t, key, k) == WithKey(s, key, k)
    ensures t == StableSort(s, key)
  {
    StableSortOrdered(s, key);
    forall k
      ensures WithKey(StableSort(s, key), key, k) == WithKey(s, key, k)
    {
      StableSortIsStable(s, key, k);
    }
    OrderedByWithKey(t, StableSort(s, key), key);
  }

  // ---------------------------------------------------------------------
  // Lists built from a sorted list
  // ---------------------------------------------------------------------

  /** `f` applied to each element of `s`, in order. */
  function Map<T, U>(s: seq<T>, f: T -> U): seq<U>
  {
    seq(|s|, i requires 0 <= i < |s| => f(s[i]))
  }

  /** The lists `f` gives for the elements of `s`, one after another. */
  function FlatMap<T, U>(s: seq<T>, f: T -> seq<U>): seq<U>
  {
    if s == [] then [] else FlatMap(s[..|s| - 1], f) + f(s[|s| - 1])
  }

  lemma MapAppend<T, U>(a: seq<T>, b: seq<T>, f: T -> U)
    ensures Map(a + b, f) == Map(a, f) + Map(b, f)
  {
  }

  lemma {:induction false} MapOfInsert<T, U>(s: seq<T>, x: T, key: T -> string, f: T -> U)
    ensures multiset(Map(Insert(s, x, key), f)) == multiset(Map(s, f)) + multiset{f(x)}
  {
    if s == [] || !Less(key(x), key(s[|s| - 1])) {
      MapAppend(s, [x], f);
    } else {
      var init, last := s[..|s| - 1], s[|s| - 1];
      MapOfInsert(init, x, key, f);
      MapAppend(Insert(init, x, key), [last], f);
      MapAppend(init, [last], f);
      assert s == init + [last];
    }
  }

  /** Sorting before mapping changes the order of the results and nothing else. */
  lemma {:induction false} MapOfStableSort<T, U>(s: seq<T>, key: T -> string, f: T -> U)
    ensures multiset(Map(StableSort(s, key), f)) == multiset(Map(s, f))
  {
    if s != [] {
      var init, last := s[..|s| - 1], s[|s| - 1];
      MapOfStableSort(init, key, f);
      MapOfInsert(StableSort(init, key), last, key, f);
      MapAppend(init, [last], f);
      assert s == init + [last];
    }
  }

  lemma {:induction false} FlatMapAppend<T, U>(a: seq<T>, b: seq<T>, f: T -> seq<U>)
    ensures FlatMap(a + b, f) == FlatMap(a, f) + FlatMap(b, f)
    decreases |b|
  {
    if b == [] {
      assert a + b == a;
    } else {
      var init := b[..|b| - 1];
      FlatMapAppend(a, init, f);
      assert (a + b)[..|a + b| - 1] == a + init;
    }
  }

  lemma {:induction false} FlatMapOfInsert<T, U>(s: seq<T>, x: T, key: T -> string, f: T -> seq<U>)
    ensures multiset(FlatMap(Insert(s, x, key), f)) == multiset(FlatMap(s, f)) + multiset(f(x))
  {
    if s == [] || !Less(key(x), key(s[|s| - 1])) {
      FlatMapAppend(s, [x], f);
      assert FlatMap([x], f) == f(x);
    } else {
      var init, last := s[..|s| - 1], s[|s| - 1];
      FlatMapOfInsert(init, x, key, f);
      FlatMapAppend(Insert(init, x, key), [last], f);
      assert FlatMap([last], f) == f(last);
    }
  }

  /** Sorting before flattening changes the order of the results and nothing else. */
  lemma {:induction false} FlatMapOfStableSort<T, U>(s: seq<T>, key: T -> string, f: T -> seq<U>)
    ensures multiset(FlatMap(StableSort(s, key), f)) == multiset(FlatMap(s, f))
  {
    if s != [] {
      FlatMapOfStableSort(s[..|s| - 1], key, f);
      FlatMapOfInsert(StableSort(s[..|s| - 1], key), s[|s| - 1], key, f);
    }
  }

  /** Flattening lists that are permutations of each other, element by element. */
  lemma {:induction false} FlatMapPointwise<T, U>(s: seq<T>, f: T -> seq<U>, g: T -> seq<U>)
    requires forall x :: x in s ==> multiset(f(x)) == multiset(g(x))
    ensures multiset(FlatMap(s, f)) == multiset(FlatMap(s, g))
  {
    if s != [] {
      var init := s[..|s| - 1];
      assert forall x :: x in init ==> x in s;
      FlatMapPointwise(init, f, g);
    }
  }

  lemma {:induction false} FlatMapLength<T, U>(s: seq<T>, f: T -> seq<U>, n: T -> nat)
    requires forall x :: x in s ==> |f(x)| == n(x)
    ensures |FlatMap(s, f)| == Sum(s, n)
  {
    if s != [] {
      var init := s[..|s| - 1];
      assert forall x :: x in init ==> x in s;
      FlatMapLength(init, f, n);
    }
  }

  function Sum<T>(s: seq<T>, n: T -> nat): nat
  {
    if s == [] then 0 else Sum(s[..|s| - 1], n) + n(s[|s| - 1])
  }

  lemma {:induction false} FlatMapAll<T, U>(s: seq<T>, f: T -> seq<U>, p: U -> bool)
    requires forall x, i :: x in s && 0 <= i < |f(x)| ==> p(f(x)[i])
    ensures forall i :: 0 <= i < |FlatMap(s, f)| ==> p(FlatMap(s, f)[i])
  {
    if s != [] {
      var init, last := s[..|s| - 1], s[|s| - 1];
      assert forall x :: x in init ==> x in s;
      FlatMapAll(init, f, p);
      var r := FlatMap(s, f);
      var head := FlatMap(init, f);
      forall i | 0 <= i < |r|
        ensures p(r[i])
      {
        if i < |head| {
          assert r[i] == head[i];
        } else {
          assert r[i] == f(last)[i - |head|];
        }
      }
    }
  }

  /** When every result of `f(x)` has the key of `x`, a bound on the keys
      of `s` bounds the keys of its flattening. */
  lemma {:induction false} FlatMapBounded<T, U>(s: seq<T>, key: T -> string, f: T -> seq<U>, key2: U -> string, bound: string)
    requires forall x, i :: x in s && 0 <= i < |f(x)| ==> key2(f(x)[i]) == key(x)
    requires forall k :: 0 <= k < |s| ==> !Less(bound, key(s[k]))
    ensures forall i :: 0 <= i < |FlatMap(s, f)| ==> !Less(bound, key2(FlatMap(s, f)[i]))
  {
    if s != [] {
      var init, last := s[..|s| - 1], s[|s| - 1];
      assert forall x :: x in init ==> x in s;
      FlatMapBounded(init, key, f, key2, bound);
      var r := FlatMap(s, f);
      var head := FlatMap(init, f);
      forall i | 0 <= i < |r|
        ensures !Less(bound, key2(r[i]))
      {
        if i < |head| {
          assert r[i] == head[i];
        } else {
          assert r[i] == f(last)[i - |head|];
        }
      }
    }
  }

  /** When every result of `f(x)` has the key of `x`, flattening a list in
      key order gives a list in key order. */
  lemma {:induction false} FlatMapOrdered<T, U>(s: seq<T>, key: T -> string, f: T -> seq<U>, key2: U -> string)
    requires Ordered(s, key)
    requires forall x, i :: x in s && 0 <= i < |f(x)| ==> key2(f(x)[i]) == key(x)
    ensures Ordered(FlatMap(s, f), key2)
  {
    if s != [] {
      var init, last := s[..|s| - 1], s[|s| - 1];
      assert forall x :: x in init ==> x in s;
      FlatMapOrdered(init, key, f, key2);
      FlatMapBounded(init, key, f, key2, key(last));
      LessIrreflexive(key(last));
      var r := FlatMap(s, f);
      var head := FlatMap(init, f);
      forall i, j | 0 <= i < j < |r|
        ensures !Less(key2(r[j]), key2(r[i]))
      {
        if j < |head| {
          assert r[i] == head[i] && r[j] == head[j];
        } else if i < |head| {
          assert r[i] == head[i];
          assert r[j] == f(last)[j - |head|];
        } else {
          assert r[i] == f(last)[i - |head|] && r[j] == f(last)[j - |head|];
        }
      }
    }
  }

  /** Inserting `x` at position `j` of `s` is `Insert` when every element
      from `j` on has a greater key and the one before `j` does not. */
  lemma {:induction false} InsertAt<T>(s: seq<T>, x: T, key: T -> string, j: nat)
    requires j <= |s|
    requires forall k :: j <= k < |s| ==> Less(key(x), key(s[k]))
    requires j == 0 || !Less(key(x), key(s[j - 1]))
    ensures Insert(s, x, key) == s[..j] + [x] + s[j..]
    decreases |s|
  {
    if j < |s| {
      var init := s[..|s| - 1];
      InsertAt(init, x, key, j);
      assert init[..j] == s[..j];
      assert init[j..] + [s[|s| - 1]] == s[j..];
    } else {
      assert s[..j] == s;
    }
  }

  /** Sorts the array in place, as `sort_by_key` does with a vector. */
  method SortByKey<T>(a: array<T>, key: T -> string)
    modifies a
    ensures a[..] == StableSort(old(a[..]), key)
  {
    ghost var input := a[..];
    for i := 0 to a.Length
      invariant a[..i] == StableSort(input[..i], key)
      invariant forall k :: i <= k < a.Length ==> a[k] == input[k]
    {
      ghost var sortedPart := a[..i];
      InsertLast(a, i, key);
      assert input[..i + 1][..i] == input[..i];
      assert a[..i + 1] == Insert(sortedPart, input[i], key);
    }
    assert input[..a.Length] == input && a[..a.Length] == a[..];
  }

  /** Moves `a[i]` to the left past the elements of the sorted prefix
      `a[..i]` whose key is greater than its own. */
  method InsertLast<T>(a: array<T>, i: nat, key: T -> string)
    requires i < a.Length
    modifies a
    ensures a[..i + 1] == Insert(old(a[..i]), old(a[i]), key)
    ensures forall k :: i < k < a.Length ==> a[k] == old(a[k])
  {
    ghost var start := a[..];
    ghost var done := a[..i];
    ghost var x := a[i];
    var j := i;
    while 0 < j && Less(key(a[j]), key(a[j - 1]))
      invariant 0 <= j <= i
      invariant forall k :: 0 <= k < j ==> a[k] == start[k]
      invariant a[j] == x
      invariant forall k :: j < k <= i ==> a[k] == start[k - 1]
      invariant forall k :: i < k < a.Length ==> a[k] == start[k]
      invariant forall k :: j <= k < i ==> Less(key(x), key(done[k]))
    {
      Swap(a, j - 1, j);
      j := j - 1;
    }
    InsertAt(done, x, key, j);
    assert a[..i + 1] == done[..j] + [x] + done[j..];
  }

  method Swap<T>(a: array<T>, p: nat, q: nat)
    requires p < a.Length && q < a.Length
    modifies a
    ensures a[p] == old(a[q]) && a[q] == old(a[p])
    ensures forall k :: 0 <= k < a.Length && k != p && k != q ==> a[k] == old(a[k])
  {
    a[p], a[q] := a[q], a[p];
  }

  /** Copies `s` into a fresh vector, sorts it with `SortByKey` and returns
      the result, as `let mut v: Vec<_> = ….collect(); v.sort_by_key(…)` does. */
  method SortedCopy<T>(s: seq<T>, key: T -> string) returns (sorted: seq<T>)
    ensures sorted == StableSort(s, key)
  {
    var v := new T[|s|](i requires 0 <= i < |s| => s[i]);
    assert v[..] == s;
    SortByKey(v, key);
    sorted := v[..];
  }
}

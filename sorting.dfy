/** Python's `sorted(xs, key=...)` for string keys: a stable sort, modelled as an
    insertion sort on sequences, proved sorted, a permutation and stable. */
module Sorting {
  import opened Text

  /** Every earlier element's key is `<=` every later element's key. */
  predicate SortedBy<T>(xs: seq<T>, key: T -> string) {
    forall i, j :: 0 <= i < j < |xs| ==> StrLe(key(xs[i]), key(xs[j]))
  }

  /** The elements of `xs` whose key is `k`, in their order in `xs`. */
  function WithKey<T>(xs: seq<T>, key: T -> string, k: string): seq<T>
  {
    if xs == [] then [] else (if key(xs[0]) == k then [xs[0]] else []) + WithKey(xs[1..], key, k)
  }

  /** Puts `x` in front of the first element whose key is not smaller than its own. */
  function Insert<T>(x: T, xs: seq<T>, key: T -> string): (r: seq<T>)
    requires SortedBy(xs, key)
    ensures SortedBy(r, key)
    ensures multiset(r) == multiset(xs) + multiset{x}
  {
    if xs == [] then [x]
    else if StrLe(key(x), key(xs[0])) then
      SortedBelowFirst(x, xs, key);
      ConsSorted(x, xs, key);
      [x] + xs
    else
      TailSorted(xs, key);
      var rest := Insert(x, xs[1..], key);
      RestAboveFirst(x, xs, rest, key);
      ConsSorted(xs[0], rest, key);
      assert xs == [xs[0]] + xs[1..];
      [xs[0]] + rest
  }

  /** The tail of a sorted sequence is sorted. */
  lemma TailSorted<T>(xs: seq<T>, key: T -> string)
    requires SortedBy(xs, key) && xs != []
    ensures SortedBy(xs[1..], key)
  {
    forall i, j | 0 <= i < j < |xs| - 1 ensures StrLe(key(xs[1..][i]), key(xs[1..][j])) {
      assert xs[1..][i] == xs[i + 1] && xs[1..][j] == xs[j + 1];
    }
  }

  /** An element with a key below a sorted sequence's first is below all of it. */
  lemma SortedBelowFirst<T>(x: T, xs: seq<T>, key: T -> string)
    requires SortedBy(xs, key) && xs != [] && StrLe(key(x), key(xs[0]))
    ensures forall y :: y in xs ==> StrLe(key(x), key(y))
  {
    forall y | y in xs ensures StrLe(key(x), key(y)) {
      var j :| 0 <= j < |xs| && xs[j] == y;
      if j > 0 { StrLeTransitive(key(x), key(xs[0]), key(xs[j])); }
    }
  }

  /** A sorted sequence stays sorted under an element whose key is below all of it. */
  lemma ConsSorted<T>(y: T, rest: seq<T>, key: T -> string)
    requires SortedBy(rest, key) && forall z :: z in rest ==> StrLe(key(y), key(z))
    ensures SortedBy([y] + rest, key)
  {
    var ys := [y] + rest;
    forall i, j | 0 <= i < j < |ys| ensures StrLe(key(ys[i]), key(ys[j])) {
      assert ys[j] == rest[j - 1];
      if i > 0 {
        assert ys[i] == rest[i - 1];
      } else {
        assert rest[j - 1] in rest;
      }
    }
  }

  /** The elements of `xs`'s tail and an `x` past `xs`'s first are all above the first. */
  lemma RestAboveFirst<T>(x: T, xs: seq<T>, rest: seq<T>, key: T -> string)
    requires SortedBy(xs, key) && xs != [] && !StrLe(key(x), key(xs[0]))
    requires multiset(rest) == multiset(xs[1..]) + multiset{x}
    ensures forall y :: y in rest ==> StrLe(key(xs[0]), key(y))
  {
    StrLeTotal(key(x), key(xs[0]));
    forall y | y in rest ensures StrLe(key(xs[0]), key(y)) {
      assert y in multiset(rest);
      if y != x {
        assert y in multiset(xs[1..]);
        var j :| 0 <= j < |xs[1..]| && xs[1..][j] == y;
        assert xs[j + 1] == y;
      }
    }
  }

  /** `sorted(xs, key=key)`. */
  function SortBy<T>(xs: seq<T>, key: T -> string): (r: seq<T>)
    ensures SortedBy(r, key)
    ensures multiset(r) == multiset(xs)
    ensures |r| == |xs|
  {
    if xs == [] then []
    else
      assert xs == [xs[0]] + xs[1..];
      Insert(xs[0], SortBy(xs[1..], key), key)
  }

  /** `WithKey` of a sequence with a given first element. */
  lemma WithKeyCons<T>(y: T, ys: seq<T>, key: T -> string, k: string)
    ensures WithKey([y] + ys, key, k) == (if key(y) == k then [y] else []) + WithKey(ys, key, k)
  {
    assert ([y] + ys)[1..] == ys;
  }

  /** An element whose key is larger than the first one's goes into the tail. */
  lemma InsertPastFirst<T>(x: T, xs: seq<T>, key: T -> string)
    requires SortedBy(xs, key) && xs != [] && !StrLe(key(x), key(xs[0]))
    ensures SortedBy(xs[1..], key)
    ensures Insert(x, xs, key) == [xs[0]] + Insert(x, xs[1..], key)
  {
  }

  /** `x` placed after the first element of `xs`, within `rest`, keeps the order of
      the elements with key `k`: `x` and the first element never share a key. */
  lemma WithKeyPastFirst<T>(x: T, xs: seq<T>, rest: seq<T>, key: T -> string, k: string)
    requires xs != [] && !StrLe(key(x), key(xs[0]))
    requires WithKey(rest, key, k) == (if key(x) == k then [x] else []) + WithKey(xs[1..], key, k)
    ensures WithKey([xs[0]] + rest, key, k) == (if key(x) == k then [x] else []) + WithKey(xs, key, k)
  {
    WithKeyCons(xs[0], rest, key, k);
    StrLeReflexive(key(x));
    var tail := WithKey(xs[1..], key, k);
    if key(x) == k {
      assert key(xs[0]) != k;
      assert WithKey(xs, key, k) == tail;
    } else {
      assert WithKey(rest, key, k) == tail;
    }
  }

  lemma {:induction false} InsertWithKey<T>(x: T, xs: seq<T>, key: T -> string, k: string)
    requires SortedBy(xs, key)
    ensures WithKey(Insert(x, xs, key), key, k) == (if key(x) == k then [x] else []) + WithKey(xs, key, k)
  {
    if xs == [] {
      WithKeyCons(x, xs, key, k);
    } else if StrLe(key(x), key(xs[0])) {
      WithKeyCons(x, xs, key, k);
    } else {
      InsertPastFirst(x, xs, key);
      InsertWithKey(x, xs[1..], key, k);
      WithKeyPastFirst(x, xs, Insert(x, xs[1..], key), key, k);
    }
  }

  /** Stability: elements with equal keys keep their original relative order. */
  lemma {:induction false} SortByIsStable<T>(xs: seq<T>, key: T -> string, k: string)
    ensures WithKey(SortBy(xs, key), key, k) == WithKey(xs, key, k)
  {
    if xs != [] {
      SortByIsStable(xs[1..], key, k);
      InsertWithKey(xs[0], SortBy(xs[1..], key), key, k);
    }
  }

  // ---------------------------------------------------------------- strings

  predicate Distinct<T(==)>(xs: seq<T>) {
    forall i, j :: 0 <= i < j < |xs| ==> xs[i] != xs[j]
  }

  /** Sorted with no element twice: `xs[i] < xs[j]` for every `i < j`. */
  predicate StrictlyIncreasing(xs: seq<string>) {
    forall i, j :: 0 <= i < j < |xs| ==> StrLe(xs[i], xs[j]) && xs[i] != xs[j]
  }

  function Identity(s: string): string { s }

  lemma {:induction false} DistinctByCount<T>(xs: seq<T>)
    ensures Distinct(xs) <==> forall x :: multiset(xs)[x] <= 1
  {
    if xs != [] {
      DistinctByCount(xs[1..]);
      assert xs == [xs[0]] + xs[1..];
      if Distinct(xs) {
        assert xs[0] !in xs[1..];
        assert Distinct(xs[1..]) by {
          forall i, j | 0 <= i < j < |xs[1..]| ensures xs[1..][i] != xs[1..][j] {
            assert xs[1..][i] == xs[i + 1] && xs[1..][j] == xs[j + 1];
          }
        }
      } else {
        var i, j :| 0 <= i < j < |xs| && xs[i] == xs[j];
        if i == 0 {
          assert xs[j] in xs[1..];
          assert multiset(xs)[xs[0]] >= 2;
        } else {
          assert xs[1..][i - 1] == xs[1..][j - 1];
          assert !Distinct(xs[1..]);
          var x :| multiset(xs[1..])[x] > 1;
          assert multiset(xs)[x] > 1;
        }
      }
    }
  }

  /** Sorting a list without repetitions yields a strictly increasing list. */
  lemma SortDistinctStrings(xs: seq<string>)
    requires Distinct(xs)
    ensures StrictlyIncreasing(SortBy(xs, Identity))
  {
    var r := SortBy(xs, Identity);
    DistinctByCount(xs);
    DistinctByCount(r);
  }
}

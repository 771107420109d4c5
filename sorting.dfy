/** Python's `list.sort(key=...)`: a stable sort into ascending key order. The keys the
    applications sort by are an integer or a pair of integers compared as a tuple. */
module Sorting {

  /** A sort key `(major, minor)`; a single integer `n` is `Key(n, 0)`. */
  datatype Key = Key(major: int, minor: int)

  /** Python's tuple comparison `a <= b`. */
  predicate KeyLe(a: Key, b: Key) {
    a.major < b.major || (a.major == b.major && a.minor <= b.minor)
  }

  ghost predicate SortedBy<T>(s: seq<T>, key: T -> Key) {
    forall i, j :: 0 <= i < j < |s| ==> KeyLe(key(s[i]), key(s[j]))
  }

  /** The elements of `s` whose key is `k`, in their order in `s`. */
  function WithKey<T>(s: seq<T>, key: T -> Key, k: Key): seq<T>
  {
    if s == [] then [] else (if key(s[0]) == k then [s[0]] else []) + WithKey(s[1..], key, k)
  }

  /** `x` placed before the first element whose key is not below its own. */
  function Insert<T>(x: T, s: seq<T>, key: T -> Key): (r: seq<T>)
    ensures multiset(r) == multiset(s) + multiset{x}
  {
    if s == [] then [x]
    else if KeyLe(key(x), key(s[0])) then [x] + s
    else
      assert s == [s[0]] + s[1..];
      [s[0]] + Insert(x, s[1..], key)
  }

  /** The list as `list.sort(key=key)` leaves it. */
  function SortByKey<T>(s: seq<T>, key: T -> Key): (r: seq<T>)
    ensures multiset(r) == multiset(s)
  {
    if s == [] then []
    else
      assert s == [s[0]] + s[1..];
      Insert(s[0], SortByKey(s[1..], key), key)
  }

  /** Inserting into a sorted list keeps it sorted. */
  lemma {:induction false} InsertSorted<T>(x: T, s: seq<T>, key: T -> Key)
    requires SortedBy(s, key)
    ensures SortedBy(Insert(x, s, key), key)
  {
    if s != [] && !KeyLe(key(x), key(s[0])) {
      var rest := Insert(x, s[1..], key);
      InsertSorted(x, s[1..], key);
      var r := [s[0]] + rest;
      forall j | 0 <= j < |rest| ensures KeyLe(key(s[0]), key(rest[j])) {
        assert rest[j] in multiset(rest);
        if rest[j] != x {
          assert rest[j] in multiset(s[1..]);
          var m :| 0 <= m < |s[1..]| && s[1..][m] == rest[j];
          assert s[m + 1] == rest[j];
        }
      }
      assert forall i, j :: 0 < i < j < |r| ==> r[i] == rest[i - 1] && r[j] == rest[j - 1];
    }
  }

  /** The sorted list is in ascending key order. */
  lemma {:induction false} SortByKeySorted<T>(s: seq<T>, key: T -> Key)
    ensures SortedBy(SortByKey(s, key), key)
  {
    if s != [] {
      SortByKeySorted(s[1..], key);
      InsertSorted(s[0], SortByKey(s[1..], key), key);
    }
  }

  /** `WithKey` of a list with a given head. */
  lemma WithKeyCons<T>(y: T, s: seq<T>, key: T -> Key, k: Key)
    ensures WithKey([y] + s, key, k) == (if key(y) == k then [y] else []) + WithKey(s, key, k)
  {
    assert ([y] + s)[1..] == s;
  }

  /** A head whose key differs from `x`'s passes through the step of `InsertWithKey`. */
  lemma WithKeyStep<T>(x: T, y: T, rest: seq<T>, tail: seq<T>, key: T -> Key, k: Key)
    requires key(y) != key(x)
    requires WithKey(rest, key, k) == (if key(x) == k then [x] else []) + WithKey(tail, key, k)
    ensures WithKey([y] + rest, key, k) == (if key(x) == k then [x] else []) + WithKey([y] + tail, key, k)
  {
    WithKeyCons(y, rest, key, k);
    WithKeyCons(y, tail, key, k);
  }

  /** Inserting `x` adds it in front of the elements that share its key. */
  lemma {:induction false} InsertWithKey<T>(x: T, s: seq<T>, key: T -> Key, k: Key)
    ensures WithKey(Insert(x, s, key), key, k) == (if key(x) == k then [x] else []) + WithKey(s, key, k)
  {
    if s == [] {
      WithKeyCons(x, s, key, k);
    } else if KeyLe(key(x), key(s[0])) {
      WithKeyCons(x, s, key, k);
    } else {
      InsertWithKey(x, s[1..], key, k);
      WithKeyStep(x, s[0], Insert(x, s[1..], key), s[1..], key, k);
      assert [s[0]] + s[1..] == s;
    }
  }

  /** The sort is stable: elements with equal keys keep their relative order. */
  lemma {:induction false} SortByKeyStable<T>(s: seq<T>, key: T -> Key, k: Key)
    ensures WithKey(SortByKey(s, key), key, k) == WithKey(s, key, k)
  {
    if s != [] {
      SortByKeyStable(s[1..], key, k);
      InsertWithKey(s[0], SortByKey(s[1..], key), key, k);
    }
  }
}

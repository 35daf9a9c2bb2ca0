/** The stable sort of the language's library, by a numeric key, and what pins it down. */
module StableSort {

  /** Puts x in front of the first element whose key is not smaller. */
  function Insert<T>(x: T, s: seq<T>, key: T -> real): seq<T> {
    if s == [] then [x]
    else if key(x) <= key(s[0]) then [x] + s
    else [s[0]] + Insert(x, s[1..], key)
  }

  function Sort<T>(s: seq<T>, key: T -> real): seq<T> {
    if s == [] then [] else Insert(s[0], Sort(s[1..], key), key)
  }

  ghost predicate Sorted<T>(s: seq<T>, key: T -> real) {
    forall i, j | 0 <= i < j < |s| :: key(s[i]) <= key(s[j])
  }

  /** The elements with one key, in order. */
  function WithKey<T>(s: seq<T>, key: T -> real, k: real): seq<T> {
    if s == [] then []
    else if key(s[0]) == k then [s[0]] + WithKey(s[1..], key, k)
    else WithKey(s[1..], key, k)
  }

  lemma {:induction false} InsertPermutes<T>(x: T, s: seq<T>, key: T -> real)
    ensures multiset(Insert(x, s, key)) == multiset([x] + s)
  {
    if s != [] && key(x) > key(s[0]) {
      InsertPermutes(x, s[1..], key);
      assert s == [s[0]] + s[1..];
    }
  }

  lemma {:induction false} InsertBounded<T>(x: T, s: seq<T>, key: T -> real, low: real)
    requires low <= key(x) && forall i | 0 <= i < |s| :: low <= key(s[i])
    ensures forall i | 0 <= i < |Insert(x, s, key)| :: low <= key(Insert(x, s, key)[i])
  {
    if s != [] && key(x) > key(s[0]) {
      InsertBounded(x, s[1..], key, low);
    }
  }

  lemma {:induction false} InsertKeepsSorted<T>(x: T, s: seq<T>, key: T -> real)
    requires Sorted(s, key)
    ensures Sorted(Insert(x, s, key), key)
  {
    if s != [] && key(x) > key(s[0]) {
      InsertKeepsSorted(x, s[1..], key);
      InsertBounded(x, s[1..], key, key(s[0]));
    }
  }

  lemma {:induction false} InsertKeepsOrder<T>(x: T, s: seq<T>, key: T -> real, k: real)
    ensures WithKey(Insert(x, s, key), key, k) == WithKey([x] + s, key, k)
  {
    if s != [] && key(x) > key(s[0]) {
      InsertKeepsOrder(x, s[1..], key, k);
    }
  }

  /** Sorting gives a sorted permutation in which equal keys keep their order. */
  lemma {:induction false} SortProperties<T>(s: seq<T>, key: T -> real)
    ensures Sorted(Sort(s, key), key)
    ensures multiset(Sort(s, key)) == multiset(s)
    ensures forall k :: WithKey(Sort(s, key), key, k) == WithKey(s, key, k)
  {
    if s != [] {
      SortProperties(s[1..], key);
      InsertKeepsSorted(s[0], Sort(s[1..], key), key);
      InsertPermutes(s[0], Sort(s[1..], key), key);
      assert s == [s[0]] + s[1..];
      forall k ensures WithKey(Sort(s, key), key, k) == WithKey(s, key, k) {
        InsertKeepsOrder(s[0], Sort(s[1..], key), key, k);
      }
    }
  }

  lemma {:induction false} FirstOfItsKey<T>(s: seq<T>, key: T -> real, k: real)
    ensures WithKey(s, key, k) != [] ==> exists i :: 0 <= i < |s| && key(s[i]) == k
    ensures (exists i :: 0 <= i < |s| && key(s[i]) == k) ==> WithKey(s, key, k) != []
  {
    if s != [] {
      FirstOfItsKey(s[1..], key, k);
      if WithKey(s[1..], key, k) != [] {
        var i :| 0 <= i < |s[1..]| && key(s[1..][i]) == k;
        assert key(s[i + 1]) == k;
      }
      if i :| 0 <= i < |s| && key(s[i]) == k {
        if i > 0 { assert key(s[1..][i - 1]) == k; }
      }
    }
  }

  /** These two properties leave no choice, so every stable sort computes this function. */
  lemma {:induction false} StableSortIsUnique<T>(a: seq<T>, b: seq<T>, key: T -> real)
    requires Sorted(a, key) && Sorted(b, key)
    requires forall k :: WithKey(a, key, k) == WithKey(b, key, k)
    ensures a == b
  {
    if a == [] || b == [] {
      if a != [] { FirstOfItsKey(a, key, key(a[0])); FirstOfItsKey(b, key, key(a[0])); }
      if b != [] { FirstOfItsKey(b, key, key(b[0])); FirstOfItsKey(a, key, key(b[0])); }
    } else {
      FirstOfItsKey(a, key, key(b[0]));
      FirstOfItsKey(b, key, key(a[0]));
      assert key(a[0]) == key(b[0]);
      assert WithKey(a, key, key(a[0]))[0] == a[0] && WithKey(b, key, key(b[0]))[0] == b[0];
      forall k ensures WithKey(a[1..], key, k) == WithKey(b[1..], key, k) {
        assert WithKey(a, key, k) == WithKey(b, key, k);
        if k == key(a[0]) {
          assert WithKey(a[1..], key, k) == WithKey(a, key, k)[1..];
          assert WithKey(b[1..], key, k) == WithKey(b, key, k)[1..];
        }
      }
      StableSortIsUnique(a[1..], b[1..], key);
      assert a == [a[0]] + a[1..] && b == [b[0]] + b[1..];
    }
  }
}

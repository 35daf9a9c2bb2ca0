/** Sequences without repetitions, and the values of a sequence in order of first appearance. */
module Uniques {

  ghost predicate Distinct(keys: seq<string>) {
    forall i, j | 0 <= i < j < |keys| :: keys[i] != keys[j]
  }

  /** The values of a sequence, each at its first appearance. */
  function FirstAppearances(keys: seq<string>): seq<string> {
    if keys == [] then []
    else
      var n := |keys| - 1;
      var before := FirstAppearances(keys[..n]);
      if keys[n] in before then before else before + [keys[n]]
  }

  /** Position of the first appearance; the length when there is none. */
  function Position(keys: seq<string>, key: string): nat {
    if keys == [] || keys[0] == key then 0 else 1 + Position(keys[1..], key)
  }

  lemma {:induction false} PositionIsFirst(keys: seq<string>, key: string)
    ensures Position(keys, key) <= |keys|
    ensures Position(keys, key) < |keys| ==> keys[Position(keys, key)] == key
    ensures forall i | 0 <= i < Position(keys, key) :: keys[i] != key
    ensures key in keys <==> Position(keys, key) < |keys|
  {
    if keys != [] && keys[0] != key {
      PositionIsFirst(keys[1..], key);
      assert keys == [keys[0]] + keys[1..];
      assert forall i | 0 < i < |keys| :: keys[i] == keys[1..][i - 1];
    }
  }

  lemma PositionGrows(keys: seq<string>, last: string, key: string)
    ensures key in keys ==> Position(keys + [last], key) == Position(keys, key)
    ensures key !in keys && key == last ==> Position(keys + [last], key) == |keys|
  {
    PositionIsFirst(keys, key);
    PositionIsFirst(keys + [last], key);
    var p, q := Position(keys, key), Position(keys + [last], key);
    assert forall i | 0 <= i < |keys| :: (keys + [last])[i] == keys[i];
    assert (keys + [last])[|keys|] == last;
  }

  /** The same values, each once, in the order of their first appearances. */
  lemma {:induction false} FirstAppearancesInOrder(keys: seq<string>)
    ensures forall k :: k in FirstAppearances(keys) <==> k in keys
    ensures forall i, j | 0 <= i < j < |FirstAppearances(keys)| ::
              Position(keys, FirstAppearances(keys)[i]) < Position(keys, FirstAppearances(keys)[j])
    ensures Distinct(FirstAppearances(keys))
  {
    if keys != [] {
      var n := |keys| - 1;
      var before := FirstAppearances(keys[..n]);
      var all := FirstAppearances(keys);
      FirstAppearancesInOrder(keys[..n]);
      assert keys == keys[..n] + [keys[n]];
      forall i, j | 0 <= i < j < |all| ensures Position(keys, all[i]) < Position(keys, all[j]) {
        PositionGrows(keys[..n], keys[n], all[i]);
        PositionGrows(keys[..n], keys[n], all[j]);
        assert all[i] == before[i] && before[i] in before;
        PositionIsFirst(keys[..n], all[i]);
        if j < |before| { assert all[j] == before[j] && before[j] in before; }
      }
    }
  }

  lemma {:induction false} DistinctPrefixStays(a: seq<string>, b: seq<string>)
    requires Distinct(a)
    ensures a <= FirstAppearances(a + b)
    decreases |a| + |b|
  {
    var n := |a + b| - 1;
    if b != [] {
      assert (a + b)[..n] == a + b[..|b| - 1];
      DistinctPrefixStays(a, b[..|b| - 1]);
    } else if a != [] {
      assert a + b == a && a[..n] + [] == a[..n];
      DistinctPrefixStays(a[..n], []);
      FirstAppearancesInOrder(a[..n]);
      assert a[n] !in a[..n];
      NoLonger(a[..n]);
    } else {
      assert a + b == [];
    }
  }

  lemma {:induction false} NoLonger(keys: seq<string>)
    ensures |FirstAppearances(keys)| <= |keys|
  {
    if keys != [] {
      NoLonger(keys[..|keys| - 1]);
    }
  }
}

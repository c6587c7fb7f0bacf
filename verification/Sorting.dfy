/** std::sort over values with distinct keys: there is only one sorted order, so the algorithm does not matter. */
module Sorting {

  ghost predicate DistinctKeys<T>(xs: seq<T>, key: T -> int) {
    forall i, j :: 0 <= i < j < |xs| ==> key(xs[i]) != key(xs[j])
  }

  ghost predicate SortedBy<T>(xs: seq<T>, key: T -> int) {
    forall i, j :: 0 <= i < j < |xs| ==> key(xs[i]) < key(xs[j])
  }

  lemma InsertedIsSorted<T>(sorted: seq<T>, key: T -> int, k: nat, x: T)
    requires SortedBy(sorted, key) && k <= |sorted|
    requires forall j :: 0 <= j < |sorted| ==> if j < k then key(sorted[j]) < key(x) else key(x) < key(sorted[j])
    ensures var r := sorted[..k] + [x] + sorted[k..];
            SortedBy(r, key) && forall y :: y in r <==> y in sorted || y == x
  {
    var r := sorted[..k] + [x] + sorted[k..];
    forall i, j | 0 <= i < j < |r| ensures key(r[i]) < key(r[j]) {
      var y := if i < k then sorted[i] else if i == k then x else sorted[i - 1];
      var z := if j < k then sorted[j] else if j == k then x else sorted[j - 1];
      assert r[i] == y && r[j] == z;
    }
    assert sorted == sorted[..k] + sorted[k..];
  }

  /** Inserts x where its key belongs. */
  method Insert<T>(sorted: seq<T>, key: T -> int, x: T) returns (r: seq<T>)
    requires SortedBy(sorted, key) && forall j :: 0 <= j < |sorted| ==> key(sorted[j]) != key(x)
    ensures SortedBy(r, key) && forall y :: y in r <==> y in sorted || y == x
  {
    var k := |sorted|;
    while k > 0 && key(x) < key(sorted[k - 1])
      invariant 0 <= k <= |sorted|
      invariant forall j :: k <= j < |sorted| ==> key(x) < key(sorted[j])
    {
      k := k - 1;
    }
    InsertedIsSorted(sorted, key, k, x);
    r := sorted[..k] + [x] + sorted[k..];
  }

  method Sort<T>(xs: seq<T>, key: T -> int) returns (sorted: seq<T>)
    requires DistinctKeys(xs, key)
    ensures SortedBy(sorted, key) && forall x :: x in sorted <==> x in xs
  {
    sorted := [];
    for i := 0 to |xs|
      invariant SortedBy(sorted, key) && forall x :: x in sorted <==> x in xs[..i]
    {
      forall j | 0 <= j < |sorted| ensures key(sorted[j]) != key(xs[i]) {
        assert sorted[j] in xs[..i];
      }
      sorted := Insert(sorted, key, xs[i]);
      assert xs[..i + 1] == xs[..i] + [xs[i]];
    }
    assert xs[..|xs|] == xs;
  }
}

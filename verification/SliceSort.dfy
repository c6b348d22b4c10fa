/** The insertion sort that the radix tree's eviction writes out by hand, over an integer key. */
module SliceSort {

  ghost predicate Ascending<T>(s: seq<T>, key: T -> int) {
    forall i, j :: 0 <= i < j < |s| ==> key(s[i]) <= key(s[j])
  }

  method InsertionSort<T>(s: seq<T>, key: T -> int) returns (r: seq<T>)
    ensures Ascending(r, key) && multiset(r) == multiset(s)
  {
    r := s;
    for i := 0 to |s|
      invariant |r| == |s| && multiset(r) == multiset(s)
      invariant Ascending(r[..i], key)
    {
      r := SiftDown(r, i, key);
    }
    assert r[..|s|] == r;
  }

  /** Neighbours j - 1 and j exchanged. */
  function Exchanged<T>(s: seq<T>, j: nat): (r: seq<T>)
    requires 0 < j < |s|
    ensures |r| == |s| && multiset(r) == multiset(s)
  {
    s[j := s[j - 1]][j - 1 := s[j]]
  }

  /** Ascending up to position i, but for the element on its way down, at position j. */
  ghost predicate AscendingBut<T>(s: seq<T>, key: T -> int, i: nat, j: nat)
    requires i < |s|
  {
    forall a, b :: 0 <= a < b <= i && b != j ==> key(s[a]) <= key(s[b])
  }

  lemma ExchangeKeepsOrder<T>(s: seq<T>, key: T -> int, i: nat, j: nat)
    requires 0 < j <= i < |s| && AscendingBut(s, key, i, j) && key(s[j]) < key(s[j - 1])
    ensures AscendingBut(Exchanged(s, j), key, i, j - 1)
  {
    var r := Exchanged(s, j);
    forall a, b | 0 <= a < b <= i && b != j - 1
      ensures key(r[a]) <= key(r[b])
    {
      assert r[a] == s[if a == j then j - 1 else if a == j - 1 then j else a];
      assert r[b] == s[if b == j then j - 1 else b];
    }
  }

  /** The inner loop: the element at position i swaps its way down into the sorted prefix. */
  method SiftDown<T>(s: seq<T>, i: nat, key: T -> int) returns (r: seq<T>)
    requires i < |s| && Ascending(s[..i], key)
    ensures |r| == |s| && multiset(r) == multiset(s)
    ensures Ascending(r[..i + 1], key)
  {
    r := s;
    var j := i;
    while j > 0 && key(r[j]) < key(r[j - 1])
      invariant 0 <= j <= i && |r| == |s| && multiset(r) == multiset(s)
      invariant AscendingBut(r, key, i, j)
    {
      ExchangeKeepsOrder(r, key, i, j);
      r := Exchanged(r, j);
      j := j - 1;
    }
    SiftedIsSorted(r, key, i, j);
  }

  lemma SiftedIsSorted<T>(r: seq<T>, key: T -> int, i: nat, j: nat)
    requires j <= i < |r| && AscendingBut(r, key, i, j) && (j > 0 ==> key(r[j - 1]) <= key(r[j]))
    ensures Ascending(r[..i + 1], key)
  {
    forall a, b | 0 <= a < b <= i
      ensures key(r[a]) <= key(r[b])
    {
      if b == j && a < j - 1 {
        assert key(r[a]) <= key(r[j - 1]);
      }
    }
  }
}

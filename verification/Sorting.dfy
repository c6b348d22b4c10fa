/** The library sort the router calls, as a stable insertion sort, and the order on identifiers. */
module Sorting {
  import opened Words

  /** Lexicographic order on identifiers. */
  predicate Less(a: string, b: string) {
    if a == [] || b == [] then a == [] && b != []
    else if a[0] == b[0] then Less(a[1..], b[1..])
    else a[0] < b[0]
  }

  lemma {:induction false} LessIsTotal(a: string, b: string)
    ensures a == b || Less(a, b) || Less(b, a)
    ensures !(Less(a, b) && Less(b, a))
    ensures a == b ==> !Less(a, b)
  {
    if a != [] && b != [] && a[0] == b[0] {
      LessIsTotal(a[1..], b[1..]);
      assert a == [a[0]] + a[1..] && b == [b[0]] + b[1..];
    }
  }

  lemma {:induction false} LessIsTransitive(a: string, b: string, c: string)
    requires Less(a, b) && Less(b, c)
    ensures Less(a, c)
  {
    if a != [] && b != [] && c != [] && a[0] == b[0] == c[0] {
      LessIsTransitive(a[1..], b[1..], c[1..]);
    }
  }

  /** From position k on the strings differ, and a is the lesser one there: it ends first or has the
      lesser character. */
  ghost predicate LesserAt(a: string, b: string, k: nat) {
    k <= |a| && k < |b| && a[..k] == b[..k] && (k == |a| || a[k] < b[k])
  }

  /** The order is that of a dictionary. */
  lemma {:induction false} LessIsLexicographic(a: string, b: string)
    ensures Less(a, b) <==> exists k: nat :: LesserAt(a, b, k)
    decreases |a|
  {
    if a == [] || b == [] {
      assert a == [] && b != [] ==> LesserAt(a, b, 0);
    } else if a[0] != b[0] {
      assert a[0] < b[0] ==> LesserAt(a, b, 0);
      assert forall k: nat :: LesserAt(a, b, k) && k > 0 ==> a[..k][0] == b[..k][0];
    } else {
      LessIsLexicographic(a[1..], b[1..]);
      forall k: nat
        ensures LesserAt(a[1..], b[1..], k) <==> LesserAt(a, b, k + 1)
      {
        if k < |a| && k < |b| {
          SamePrefixes(a, b, k);
        }
      }
      assert !LesserAt(a, b, 0);
      if k: nat :| LesserAt(a, b, k) {
        assert LesserAt(a[1..], b[1..], k - 1);
      }
      if k: nat :| LesserAt(a[1..], b[1..], k) {
        assert LesserAt(a, b, k + 1);
      }
    }
  }

  lemma SamePrefixes(a: string, b: string, k: nat)
    requires a != [] && b != [] && a[0] == b[0] && k < |a| && k < |b|
    ensures a[1..][..k] == b[1..][..k] <==> a[..k + 1] == b[..k + 1]
  {
    assert a[..k + 1] == [a[0]] + a[1..][..k] && b[..k + 1] == [b[0]] + b[1..][..k];
    assert a[1..][..k] == a[..k + 1][1..] && b[1..][..k] == b[..k + 1][1..];
  }

  function Insert<T>(less: (T, T) -> bool, s: seq<T>, x: T): (r: seq<T>)
    ensures multiset(r) == multiset(s) + multiset{x}
    decreases |s|
  {
    if s == [] || !less(x, s[|s| - 1]) then s + [x]
    else
      assert s == s[..|s| - 1] + [s[|s| - 1]];
      Insert(less, s[..|s| - 1], x) + [s[|s| - 1]]
  }

  function Sort<T>(less: (T, T) -> bool, s: seq<T>): (r: seq<T>)
    ensures multiset(r) == multiset(s)
    decreases |s|
  {
    if s == [] then []
    else
      assert s == s[..|s| - 1] + [s[|s| - 1]];
      Insert(less, Sort(less, s[..|s| - 1]), s[|s| - 1])
  }

  /** Sorting keeps the elements. */
  lemma SortMembers<T>(less: (T, T) -> bool, s: seq<T>)
    ensures forall x :: x in Sort(less, s) ==> x in s
    ensures forall x :: x in s ==> x in Sort(less, s)
    ensures |Sort(less, s)| == |s|
  {
    forall x | x in Sort(less, s)
      ensures x in s
    {
      assert x in multiset(Sort(less, s));
    }
    forall x | x in s
      ensures x in Sort(less, s)
    {
      assert x in multiset(s);
    }
    assert |multiset(s)| == |s| && |multiset(Sort(less, s))| == |Sort(less, s)|;
  }

  /** A strict order that tells any two different elements of m apart. */
  ghost predicate StrictTotal<T>(less: (T, T) -> bool, m: multiset<T>) {
    && (forall a, b :: a in m && b in m && less(a, b) ==> !less(b, a))
    && (forall a, b :: a in m && b in m ==> a == b || less(a, b) || less(b, a))
    && (forall a, b, c :: a in m && b in m && c in m && less(a, b) && less(b, c) ==> less(a, c))
  }

  /** No later element is strictly before an earlier one. */
  ghost predicate Sorted<T>(less: (T, T) -> bool, s: seq<T>) {
    forall i, j :: 0 <= i < j < |s| ==> !less(s[j], s[i])
  }

  lemma NotBeforeIsTransitive<T>(less: (T, T) -> bool, m: multiset<T>, a: T, b: T, c: T)
    requires StrictTotal(less, m) && a in m && b in m && c in m
    requires !less(b, a) && !less(c, b)
    ensures !less(c, a)
  {
    if a != b && b != c {
      assert less(a, b) && less(b, c);
    }
  }

  lemma AppendSorted<T>(less: (T, T) -> bool, s: seq<T>, x: T)
    requires Sorted(less, s) && forall y :: y in s ==> !less(x, y)
    ensures Sorted(less, s + [x])
  {
  }

  lemma {:induction false} InsertSorts<T>(less: (T, T) -> bool, s: seq<T>, x: T, m: multiset<T>)
    requires StrictTotal(less, m) && x in m && (forall y :: y in s ==> y in m) && Sorted(less, s)
    ensures Sorted(less, Insert(less, s, x))
    decreases |s|
  {
    if s == [] {
    } else if less(x, s[|s| - 1]) {
      var front, last := s[..|s| - 1], s[|s| - 1];
      InsertSorts(less, front, x, m);
      var r := Insert(less, front, x);
      assert last in m;
      forall y | y in r
        ensures !less(last, y)
      {
        assert y in multiset(r);
        if y != x {
          assert y in front;
        }
      }
      AppendSorted(less, r, last);
    } else {
      var last := s[|s| - 1];
      assert last in s;
      forall y | y in s
        ensures !less(x, y)
      {
        if y != last {
          NotBeforeIsTransitive(less, m, y, last, x);
        }
      }
      AppendSorted(less, s, x);
    }
  }

  lemma {:induction false} SortSorts<T>(less: (T, T) -> bool, s: seq<T>)
    requires StrictTotal(less, multiset(s))
    ensures Sorted(less, Sort(less, s))
    decreases |s|
  {
    if s != [] {
      var front := s[..|s| - 1];
      assert s == front + [s[|s| - 1]];
      SortSorts(less, front);
      forall y | y in Sort(less, front)
        ensures y in multiset(s)
      {
        assert y in multiset(Sort(less, front));
      }
      InsertSorts(less, Sort(less, front), s[|s| - 1], multiset(s));
    }
  }

  /** The last elements of two sorted arrangements of the same multiset agree. */
  lemma LastAgrees<T>(less: (T, T) -> bool, m: multiset<T>, a: seq<T>, b: seq<T>)
    requires StrictTotal(less, m) && (forall y :: y in a ==> y in m) && a != [] && b != []
    requires multiset(a) == multiset(b) && Sorted(less, a) && Sorted(less, b)
    ensures a[|a| - 1] == b[|b| - 1]
  {
    var x, y := a[|a| - 1], b[|b| - 1];
    assert x in multiset(a) && y in multiset(b);
    assert x in b && y in a;
    var i :| 0 <= i < |a| && a[i] == y;
    var j :| 0 <= j < |b| && b[j] == x;
    assert x == y || (!less(x, y) && !less(y, x));
  }

  lemma DropLast<T>(a: seq<T>, b: seq<T>)
    requires a != [] && b != [] && multiset(a) == multiset(b) && a[|a| - 1] == b[|b| - 1]
    ensures multiset(a[..|a| - 1]) == multiset(b[..|b| - 1])
  {
    var x := a[|a| - 1];
    assert a == a[..|a| - 1] + [x] && b == b[..|b| - 1] + [x];
    assert multiset(a[..|a| - 1]) == multiset(a) - multiset{x};
  }

  lemma SameSize<T>(a: seq<T>, b: seq<T>)
    requires multiset(a) == multiset(b)
    ensures |a| == |b|
  {
    assert |multiset(a)| == |a| && |multiset(b)| == |b|;
  }

  /** There is only one sorted arrangement of a multiset under a strict total order. */
  lemma {:induction false} SortedIsUnique<T>(less: (T, T) -> bool, m: multiset<T>, a: seq<T>, b: seq<T>)
    requires StrictTotal(less, m) && forall y :: y in a ==> y in m
    requires multiset(a) == multiset(b) && Sorted(less, a) && Sorted(less, b)
    ensures a == b
    decreases |a|
  {
    SameSize(a, b);
    if a != [] {
      LastAgrees(less, m, a, b);
      DropLast(a, b);
      SortedIsUnique(less, m, a[..|a| - 1], b[..|b| - 1]);
      assert a == a[..|a| - 1] + [a[|a| - 1]] && b == b[..|b| - 1] + [b[|b| - 1]];
    }
  }

  lemma TwiceCounts<T>(r: seq<T>, i: nat, j: nat)
    requires i < j < |r| && r[i] == r[j]
    ensures multiset(r)[r[i]] >= 2
  {
    assert r == r[..j] + r[j..];
    assert r[i] in r[..j] && r[j..][0] == r[j];
    assert r[i] in multiset(r[..j]) && r[i] in multiset(r[j..]);
  }

  lemma {:induction false} OnceCounts<T>(s: seq<T>, x: T)
    requires Distinct(s)
    ensures multiset(s)[x] <= 1
  {
    if s != [] {
      OnceCounts(s[1..], x);
      assert s == [s[0]] + s[1..];
      if s[0] == x {
        assert x !in s[1..];
      }
    }
  }

  /** Without repetitions in the input, the sorted output increases strictly. */
  lemma SortIncreases<T>(less: (T, T) -> bool, s: seq<T>)
    requires StrictTotal(less, multiset(s)) && Distinct(s)
    ensures forall i, j :: 0 <= i < j < |Sort(less, s)| ==> less(Sort(less, s)[i], Sort(less, s)[j])
  {
    var r := Sort(less, s);
    SortSorts(less, s);
    forall i, j | 0 <= i < j < |r|
      ensures less(r[i], r[j])
    {
      assert r[i] in multiset(r) && r[j] in multiset(r);
      if r[i] == r[j] {
        TwiceCounts(r, i, j);
        OnceCounts(s, r[i]);
      }
    }
  }

  lemma IdentifiersAreOrdered(s: seq<string>)
    ensures StrictTotal(Less, multiset(s))
  {
    forall a, b
      ensures Less(a, b) ==> !Less(b, a)
      ensures a == b || Less(a, b) || Less(b, a)
    {
      LessIsTotal(a, b);
    }
    forall a, b, c | Less(a, b) && Less(b, c)
      ensures Less(a, c)
    {
      LessIsTransitive(a, b, c);
    }
  }
}

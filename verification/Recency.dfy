/** Recency lists: sequences without repetition, least recently touched first. This is the
    naive picture of an LRU cache that the directory is held against. */
module Recency {
  import opened Words

  function Elements<T>(l: seq<T>): set<T> {
    set x | x in l
  }

  /** The list with x taken out, the rest in order. */
  function Without<T(==)>(l: seq<T>, x: T): seq<T>
    decreases |l|
  {
    if l == [] then []
    else
      var rest := Without(l[..|l| - 1], x);
      if l[|l| - 1] == x then rest else rest + [l[|l| - 1]]
  }

  /** Touching x makes it the most recent element. */
  function Promote<T(==)>(l: seq<T>, x: T): seq<T> {
    Without(l, x) + [x]
  }

  function PromoteAll<T(==)>(l: seq<T>, xs: seq<T>): seq<T>
    decreases |xs|
  {
    if xs == [] then l else Promote(PromoteAll(l, xs[..|xs| - 1]), xs[|xs| - 1])
  }

  /** The cap most recent elements. */
  function Newest<T>(l: seq<T>, cap: nat): seq<T>
    decreases |l|
  {
    if |l| <= cap then l else Newest(l[1..], cap)
  }

  lemma {:induction false} NewestIsSuffix<T>(l: seq<T>, cap: nat)
    ensures Newest(l, cap) == if |l| <= cap then l else l[|l| - cap..]
    decreases |l|
  {
    if |l| > cap {
      NewestIsSuffix(l[1..], cap);
    }
  }

  /** The textbook cache: touch one key, drop the oldest if there is one too many. */
  function TouchEach<T(==)>(l: seq<T>, xs: seq<T>, cap: nat): seq<T>
    decreases |xs|
  {
    if xs == [] then l else Newest(Promote(TouchEach(l, xs[..|xs| - 1], cap), xs[|xs| - 1]), cap)
  }

  /** The last position at which x was touched. */
  function LastTouch<T(==)>(xs: seq<T>, x: T): (i: nat)
    requires x in xs
    ensures i < |xs| && xs[i] == x
    ensures forall j :: i < j < |xs| ==> xs[j] != x
    decreases |xs|
  {
    if xs[|xs| - 1] == x then |xs| - 1 else LastTouch(xs[..|xs| - 1], x)
  }

  lemma LastTouchUnique<T>(xs: seq<T>, x: T, i: nat)
    requires i < |xs| && xs[i] == x
    requires forall j :: i < j < |xs| ==> xs[j] != x
    ensures LastTouch(xs, x) == i
  {
  }

  lemma LastTouchBefore<T>(front: seq<T>, tail: seq<T>, x: T)
    requires x in front && x !in tail
    ensures x in front + tail && LastTouch(front + tail, x) == LastTouch(front, x)
  {
    var i := LastTouch(front, x);
    assert (front + tail)[i] == x;
    forall j | i < j < |front + tail|
      ensures (front + tail)[j] != x
    {
      assert (front + tail)[j] == if j < |front| then front[j] else tail[j - |front|];
    }
    LastTouchUnique(front + tail, x, i);
  }

  lemma LastTouchWithin<T>(front: seq<T>, tail: seq<T>, x: T)
    requires x in tail
    ensures x in front + tail && LastTouch(front + tail, x) >= |front|
  {
    var i :| 0 <= i < |tail| && tail[i] == x;
    assert (front + tail)[|front| + i] == x;
  }

  lemma {:induction false} WithoutElements<T>(l: seq<T>, x: T)
    ensures forall y :: y in Without(l, x) ==> y in l && y != x
    ensures forall y :: y in l && y != x ==> y in Without(l, x)
    decreases |l|
  {
    if l != [] {
      WithoutElements(l[..|l| - 1], x);
      assert l == l[..|l| - 1] + [l[|l| - 1]];
    }
  }

  lemma DistinctAppend<T>(l: seq<T>, x: T)
    requires Distinct(l) && x !in l
    ensures Distinct(l + [x])
  {
    var m := l + [x];
    forall i, j | 0 <= i < j < |m|
      ensures m[i] != m[j]
    {
      assert m[i] in l;
    }
  }

  lemma {:induction false} WithoutDistinct<T>(l: seq<T>, x: T)
    requires Distinct(l)
    ensures Distinct(Without(l, x))
    decreases |l|
  {
    if l != [] {
      var front, last := l[..|l| - 1], l[|l| - 1];
      WithoutDistinct(front, x);
      WithoutElements(front, x);
      assert last !in front;
      if last != x {
        DistinctAppend(Without(front, x), last);
      }
    }
  }

  lemma {:induction false} WithoutConcat<T>(a: seq<T>, b: seq<T>, x: T)
    ensures Without(a + b, x) == Without(a, x) + Without(b, x)
    decreases |b|
  {
    if b == [] {
      assert a + b == a;
    } else {
      assert (a + b)[..|a + b| - 1] == a + b[..|b| - 1];
      WithoutConcat(a, b[..|b| - 1], x);
    }
  }

  lemma {:induction false} WithoutAbsent<T>(l: seq<T>, x: T)
    requires x !in l
    ensures Without(l, x) == l
    decreases |l|
  {
    if l != [] {
      WithoutAbsent(l[..|l| - 1], x);
    }
  }

  lemma PromoteDistinct<T>(l: seq<T>, x: T)
    requires Distinct(l)
    ensures Distinct(Promote(l, x))
    ensures forall y :: y in Promote(l, x) ==> y in l || y == x
    ensures forall y :: y in l || y == x ==> y in Promote(l, x)
  {
    WithoutDistinct(l, x);
    WithoutElements(l, x);
    DistinctAppend(Without(l, x), x);
  }

  lemma {:induction false} PromoteAllDistinct<T>(l: seq<T>, xs: seq<T>)
    requires Distinct(l)
    ensures Distinct(PromoteAll(l, xs))
    ensures forall y :: y in PromoteAll(l, xs) ==> y in l || y in xs
    ensures forall y :: y in l || y in xs ==> y in PromoteAll(l, xs)
    decreases |xs|
  {
    if xs != [] {
      var front := xs[..|xs| - 1];
      assert xs == front + [xs[|xs| - 1]];
      PromoteAllDistinct(l, front);
      PromoteDistinct(PromoteAll(l, front), xs[|xs| - 1]);
    }
  }

  lemma {:induction false} PromoteAllConcat<T>(l: seq<T>, xs: seq<T>, ys: seq<T>)
    ensures PromoteAll(l, xs + ys) == PromoteAll(PromoteAll(l, xs), ys)
    decreases |ys|
  {
    if ys == [] {
      assert xs + ys == xs;
    } else {
      assert (xs + ys)[..|xs + ys| - 1] == xs + ys[..|ys| - 1];
      PromoteAllConcat(l, xs, ys[..|ys| - 1]);
    }
  }

  /** In a list without repetition, x splits it into what is older and what is newer. */
  lemma PromoteSplit<T>(l: seq<T>, i: nat)
    requires Distinct(l) && i < |l|
    ensures Promote(l, l[i]) == l[..i] + l[i + 1..] + [l[i]]
  {
    var x, older, newer := l[i], l[..i], l[i + 1..];
    assert l == older + [x] + newer;
    WithoutConcat(older + [x], newer, x);
    WithoutConcat(older, [x], x);
    WithoutSelf(x);
    WithoutAbsent(older, x);
    WithoutAbsent(newer, x);
    assert older + [] == older;
  }

  lemma WithoutSelf<T>(x: T)
    ensures Without([x], x) == []
  {
    assert [x][..0] == [];
  }

  lemma PromoteAbsent<T>(l: seq<T>, x: T)
    requires x !in l
    ensures Promote(l, x) == l + [x]
  {
    WithoutAbsent(l, x);
  }

  /** Dropping the old end before a touch makes no difference to what survives after it. */
  lemma NewestPromote<T>(l: seq<T>, x: T, cap: nat)
    requires Distinct(l) && cap > 0
    ensures Newest(Promote(Newest(l, cap), x), cap) == Newest(Promote(l, x), cap)
  {
    if |l| > cap {
      var d := |l| - cap;
      if i :| 0 <= i < |l| && l[i] == x {
        if i < d {
          NewestPromoteOld(l, i, cap);
        } else {
          NewestPromoteKept(l, i, cap);
        }
      } else {
        NewestPromoteAbsent(l, x, cap);
      }
    }
  }

  lemma NewestPromoteAbsent<T>(l: seq<T>, x: T, cap: nat)
    requires |l| > cap > 0 && x !in l
    ensures Newest(Promote(Newest(l, cap), x), cap) == Newest(Promote(l, x), cap)
  {
    var d, kept := |l| - cap, l[|l| - cap..];
    PromoteAbsent(l, x);
    PromoteAbsent(kept, x);
    NewestIsSuffix(l, cap);
    NewestIsSuffix(l + [x], cap);
    NewestIsSuffix(kept + [x], cap);
    assert (l + [x])[d + 1..] == (kept + [x])[1..];
  }

  lemma NewestPromoteKept<T>(l: seq<T>, i: nat, cap: nat)
    requires Distinct(l) && |l| > cap > 0 && |l| - cap <= i < |l|
    ensures Newest(Promote(Newest(l, cap), l[i]), cap) == Newest(Promote(l, l[i]), cap)
  {
    var d := |l| - cap;
    var gone, kept, x := l[..d], l[d..], l[i];
    assert l == gone + kept && kept[i - d] == x;
    assert x !in gone;
    WithoutConcat(gone, kept, x);
    WithoutAbsent(gone, x);
    PromoteSplit(kept, i - d);
    var p, q := Promote(l, x), Promote(kept, x);
    assert p == gone + q && |q| == cap;
    NewestIsSuffix(l, cap);
    NewestIsSuffix(p, cap);
    assert p[d..] == q;
  }

  lemma NewestPromoteOld<T>(l: seq<T>, i: nat, cap: nat)
    requires Distinct(l) && cap > 0 && i < |l| - cap
    ensures Newest(Promote(Newest(l, cap), l[i]), cap) == Newest(Promote(l, l[i]), cap)
  {
    var d, x, kept := |l| - cap, l[i], l[|l| - cap..];
    var p, q := Promote(l, x), Promote(kept, x);
    assert x !in kept;
    PromoteAbsent(kept, x);
    PromoteSplit(l, i);
    DropAcross(l, i, d);
    NewestIsSuffix(l, cap);
    NewestIsSuffix(p, cap);
    NewestIsSuffix(q, cap);
    assert |p| == |l| && |q| == cap + 1;
    assert q[1..] == l[d + 1..] + [x];
  }

  lemma DropAcross<T>(l: seq<T>, i: nat, d: nat)
    requires i < d < |l|
    ensures (l[..i] + l[i + 1..] + [l[i]])[d..] == l[d + 1..] + [l[i]]
  {
    var rest := l[..i] + l[i + 1..];
    assert rest[d..] == l[d + 1..];
  }

  lemma NewestDistinct<T>(l: seq<T>, cap: nat)
    requires Distinct(l)
    ensures Distinct(Newest(l, cap))
    ensures |Newest(l, cap)| == if |l| <= cap then |l| else cap
    ensures forall x :: x in Newest(l, cap) ==> x in l
  {
    NewestIsSuffix(l, cap);
  }

  /** Touching a whole batch and evicting once at the end leaves the same list as the textbook
      cache that evicts after every single touch. */
  lemma {:induction false} BatchEqualsOneAtATime<T>(l: seq<T>, xs: seq<T>, cap: nat)
    requires Distinct(l) && |l| <= cap && cap > 0
    ensures Newest(PromoteAll(l, xs), cap) == TouchEach(l, xs, cap)
    decreases |xs|
  {
    if xs != [] {
      var front, x := xs[..|xs| - 1], xs[|xs| - 1];
      BatchEqualsOneAtATime(l, front, cap);
      PromoteAllDistinct(l, front);
      NewestPromote(PromoteAll(l, front), x, cap);
    }
  }

  /** Truncation may be postponed over any number of touches. */
  lemma {:induction false} NewestPromoteAll<T>(l: seq<T>, xs: seq<T>, cap: nat)
    requires Distinct(l) && cap > 0
    ensures Newest(PromoteAll(Newest(l, cap), xs), cap) == Newest(PromoteAll(l, xs), cap)
    decreases |xs|
  {
    NewestDistinct(l, cap);
    if xs != [] {
      var front, x := xs[..|xs| - 1], xs[|xs| - 1];
      NewestPromoteAll(l, front, cap);
      PromoteAllDistinct(l, front);
      NewestDistinct(l, cap);
      PromoteAllDistinct(Newest(l, cap), front);
      NewestPromote(PromoteAll(l, front), x, cap);
      NewestPromote(PromoteAll(Newest(l, cap), front), x, cap);
    }
  }

  /** x stands in the recency list right before exactly those elements that were touched after
      its own last touch. */
  lemma {:induction false} NewerThan<T>(xs: seq<T>, x: T) returns (older: seq<T>, newer: seq<T>)
    requires x in xs
    ensures PromoteAll([], xs) == older + [x] + newer
    ensures Distinct(PromoteAll([], xs))
    ensures forall y :: y in newer ==> y != x && y in xs[LastTouch(xs, x)..]
    ensures forall y :: y != x && y in xs[LastTouch(xs, x)..] ==> y in newer
    decreases |xs|
  {
    PromoteAllDistinct([], xs);
    var front, y := xs[..|xs| - 1], xs[|xs| - 1];
    if y == x {
      older, newer := Without(PromoteAll([], front), x), [];
      assert xs[LastTouch(xs, x)..] == [x];
    } else {
      assert xs == front + [y];
      var o, n := NewerThan(front, x);
      older, newer := Without(o, y), Promote(n, y);
      WithoutAround(o, x, n, y);
      WithoutElements(n, y);
      TailAfter(front, y, x);
    }
  }

  lemma WithoutAround<T>(a: seq<T>, x: T, b: seq<T>, y: T)
    requires x != y
    ensures Promote(a + [x] + b, y) == Without(a, y) + [x] + Promote(b, y)
  {
    WithoutConcat(a + [x], b, y);
    WithoutConcat(a, [x], y);
    WithoutAbsent([x], y);
  }

  lemma TailAfter<T>(front: seq<T>, y: T, x: T)
    requires x in front && x != y
    ensures x in front + [y]
    ensures (front + [y])[LastTouch(front + [y], x)..] == front[LastTouch(front, x)..] + [y]
  {
    assert (front + [y])[..|front|] == front;
    LastTouchUnique(front + [y], x, LastTouch(front, x));
  }

  lemma {:induction false} ElementsAtMost<T>(l: seq<T>)
    ensures |Elements(l)| <= |l|
    decreases |l|
  {
    if l == [] {
      assert Elements(l) == {};
    } else {
      var front, last := l[..|l| - 1], l[|l| - 1];
      ElementsAtMost(front);
      assert l == front + [last];
      assert Elements(l) == Elements(front) + {last};
    }
  }

  lemma {:induction false} DistinctCount<T>(l: seq<T>)
    requires Distinct(l)
    ensures |Elements(l)| == |l|
    decreases |l|
  {
    if l != [] {
      var front := l[..|l| - 1];
      DistinctCount(front);
      assert l == front + [l[|l| - 1]];
      assert Elements(l) == Elements(front) + {l[|l| - 1]};
    }
  }

  /** Stack distance. A touched element is among the cap most recent exactly when at most cap
      distinct elements were touched from its own last touch onwards. */
  lemma StackDistance<T>(xs: seq<T>, x: T, cap: nat)
    requires x in xs
    ensures x in Newest(PromoteAll([], xs), cap) <==> |Elements(xs[LastTouch(xs, x)..])| <= cap
  {
    var older, newer := NewerThan(xs, x);
    var r := PromoteAll([], xs);
    assert r[|older|] == x && r[|older|..] == [x] + newer;
    DistinctCount(r[|older|..]);
    assert Elements(xs[LastTouch(xs, x)..]) == Elements([x] + newer) by {
      assert xs[LastTouch(xs, x)..][0] == x;
    }
    NewestByPosition(r, |older|, cap);
  }

  lemma {:induction false} SubsetSize<T>(a: set<T>, b: set<T>)
    requires a <= b
    ensures |a| <= |b|
  {
    assert b == a + (b - a);
  }

  /** A stretch of touches with at most cap distinct elements survives whatever came before it. */
  lemma RecentSurvives<T>(before: seq<T>, late: seq<T>, x: T, cap: nat)
    requires x in late && |Elements(late)| <= cap
    ensures x in Newest(PromoteAll([], before + late), cap)
  {
    var xs := before + late;
    LastTouchWithin(before, late, x);
    var tail := xs[LastTouch(xs, x)..];
    assert tail == late[LastTouch(xs, x) - |before|..];
    assert Elements(tail) <= Elements(late);
    SubsetSize(Elements(tail), Elements(late));
    StackDistance(xs, x, cap);
  }

  /** What Newest keeps of a list without repetition is decided by position alone. */
  lemma NewestByPosition<T>(l: seq<T>, i: nat, cap: nat)
    requires Distinct(l) && i < |l|
    ensures l[i] in Newest(l, cap) <==> |l| - cap <= i
  {
    var n := Newest(l, cap);
    NewestIsSuffix(l, cap);
    if |l| - cap <= i {
      assert n[i - (|l| - |n|)] == l[i];
    } else {
      forall k | 0 <= k < |n|
        ensures n[k] != l[i]
      {
        assert n[k] == l[|l| - cap + k];
      }
    }
  }

  /** The list is in order of last touch. */
  lemma OrderedByLastTouch<T>(xs: seq<T>, i: nat, j: nat)
    requires i < j < |PromoteAll([], xs)|
    ensures PromoteAll([], xs)[i] in xs && PromoteAll([], xs)[j] in xs
    ensures LastTouch(xs, PromoteAll([], xs)[i]) < LastTouch(xs, PromoteAll([], xs)[j])
  {
    PromoteAllDistinct([], xs);
    var x, y := PromoteAll([], xs)[i], PromoteAll([], xs)[j];
    var older, newer := NewerThan(xs, x);
    assert (older + [x] + newer)[|older|] == x;
    assert |older| == i;
    assert newer[j - i - 1] == y;
    assert y in newer;
  }

  /** Touching a batch without repetitions puts it, in its own order, at the recent end. */
  lemma {:induction false} PromoteAllEndsWith<T>(l: seq<T>, xs: seq<T>) returns (rest: seq<T>)
    requires Distinct(xs)
    ensures PromoteAll(l, xs) == rest + xs
    decreases |xs|
  {
    if xs == [] {
      rest := l;
      AppendNothing(l);
    } else {
      var front, last := xs[..|xs| - 1], xs[|xs| - 1];
      var before := PromoteAllEndsWith(l, front);
      rest := Without(before, last);
      PromoteBehind(before, front, last);
      assert xs == front + [last];
      Regroup(rest, front, [last]);
    }
  }

  lemma PromoteBehind<T>(before: seq<T>, front: seq<T>, x: T)
    requires x !in front
    ensures Promote(before + front, x) == Without(before, x) + front + [x]
  {
    WithoutConcat(before, front, x);
    WithoutAbsent(front, x);
  }

  /** A batch without repetitions that is longer than the bound leaves only itself. */
  lemma NewestOfBatch<T>(l: seq<T>, xs: seq<T>, cap: nat)
    requires Distinct(xs) && cap < |xs|
    ensures Newest(PromoteAll(l, xs), cap) == xs[|xs| - cap..]
  {
    var rest := PromoteAllEndsWith(l, xs);
    var all := rest + xs;
    NewestIsSuffix(all, cap);
    assert all[|all| - cap..] == xs[|xs| - cap..];
  }

  /** The most recent element that was dropped separates what is kept from what is not. */
  lemma KeptIffAfterFrontier<T>(xs: seq<T>, x: T, cap: nat)
    requires |PromoteAll([], xs)| > cap && x in xs
    ensures var r := PromoteAll([], xs);
            var frontier := r[|r| - cap - 1];
            frontier in xs && (x in Newest(r, cap) <==> LastTouch(xs, frontier) < LastTouch(xs, x))
  {
    var none: seq<T> := [];
    var r := PromoteAll(none, xs);
    var f := |r| - cap - 1;
    PromoteAllDistinct(none, xs);
    assert r[f] in r && x in r;
    var i :| 0 <= i < |r| && r[i] == x;
    NewestByPosition(r, i, cap);
    if i > f {
      OrderedByLastTouch(xs, f, i);
    } else if i < f {
      OrderedByLastTouch(xs, i, f);
    }
  }
}

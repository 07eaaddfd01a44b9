/** A stable sort by a comparison, and when sorting makes the original order irrelevant. */
module Sorting {

  // Puts `x` behind everything that may stand before it.
  function Insert<T>(s: seq<T>, x: T, leq: (T, T) -> bool): (r: seq<T>)
    ensures multiset(r) == multiset(s) + multiset{x}
  {
    if s != [] && !leq(s[|s| - 1], x) then
      var last, front := s[|s| - 1], s[..|s| - 1];
      assert s == front + [last];
      Insert(front, x, leq) + [last]
    else s + [x]
  }

  function Sort<T>(s: seq<T>, leq: (T, T) -> bool): seq<T> {
    if s == [] then [] else Insert(Sort(s[..|s| - 1], leq), s[|s| - 1], leq)
  }

  lemma {:induction false} SortPermutes<T>(s: seq<T>, leq: (T, T) -> bool)
    ensures multiset(Sort(s, leq)) == multiset(s) && |Sort(s, leq)| == |s|
  {
    if s != [] {
      var front, last := s[..|s| - 1], s[|s| - 1];
      SortPermutes(front, leq);
      assert s == front + [last];
    }
    assert |Sort(s, leq)| == |multiset(Sort(s, leq))| == |multiset(s)| == |s|;
  }

  ghost predicate IsSorted<T(!new)>(s: seq<T>, leq: (T, T) -> bool) {
    forall i, j :: 0 <= i < j < |s| ==> leq(s[i], s[j])
  }

  // Any two can be compared, and the comparison is transitive.
  ghost predicate IsOrder<T(!new)>(leq: (T, T) -> bool) {
    && (forall a, b :: leq(a, b) || leq(b, a))
    && (forall a, b, c :: leq(a, b) && leq(b, c) ==> leq(a, c))
  }

  lemma AppendKeepsSorted<T(!new)>(s: seq<T>, last: T, leq: (T, T) -> bool)
    requires IsSorted(s, leq) && forall x :: x in s ==> leq(x, last)
    ensures IsSorted(s + [last], leq)
  {
  }

  lemma LastIsGreatest<T(!new)>(s: seq<T>, x: T, leq: (T, T) -> bool)
    requires IsOrder(leq) && IsSorted(s, leq) && s != [] && x in s
    ensures leq(x, s[|s| - 1])
  {
    var i :| 0 <= i < |s| && s[i] == x;
    assert i < |s| - 1 ==> leq(s[i], s[|s| - 1]);
  }

  lemma {:induction false} InsertSorts<T(!new)>(s: seq<T>, x: T, leq: (T, T) -> bool)
    requires IsOrder(leq) && IsSorted(s, leq)
    ensures IsSorted(Insert(s, x, leq), leq)
  {
    if s != [] && !leq(s[|s| - 1], x) {
      var last, front := s[|s| - 1], s[..|s| - 1];
      InsertSorts(front, x, leq);
      var inner := Insert(front, x, leq);
      forall y | y in inner ensures leq(y, last) {
        assert y in multiset(inner);
        if y in front { LastIsGreatest(s, y, leq); }
      }
      AppendKeepsSorted(inner, last, leq);
    } else {
      forall y | y in s ensures leq(y, x) { LastIsGreatest(s, y, leq); }
      AppendKeepsSorted(s, x, leq);
    }
  }

  lemma {:induction false} SortSorts<T(!new)>(s: seq<T>, leq: (T, T) -> bool)
    requires IsOrder(leq)
    ensures IsSorted(Sort(s, leq), leq)
  {
    if s != [] {
      SortSorts(s[..|s| - 1], leq);
      InsertSorts(Sort(s[..|s| - 1], leq), s[|s| - 1], leq);
    }
  }

  // No two different elements are equal to the comparison.
  ghost predicate KeysAreDistinct<T(!new)>(s: seq<T>, leq: (T, T) -> bool) {
    forall a, b :: a in s && b in s && leq(a, b) && leq(b, a) ==> a == b
  }

  lemma LastsAgree<T(!new)>(a: seq<T>, b: seq<T>, leq: (T, T) -> bool)
    requires IsOrder(leq) && IsSorted(a, leq) && IsSorted(b, leq) && KeysAreDistinct(a, leq)
    requires multiset(a) == multiset(b) && a != []
    ensures |a| == |b| && a[|a| - 1] == b[|b| - 1]
  {
    assert |a| == |multiset(a)| == |multiset(b)| == |b|;
    var lastA, lastB := a[|a| - 1], b[|b| - 1];
    assert lastA in multiset(b) && lastB in multiset(a);
    LastIsGreatest(b, lastA, leq);
    LastIsGreatest(a, lastB, leq);
  }

  lemma FrontsAgree<T(!new)>(a: seq<T>, b: seq<T>, last: T)
    requires multiset(a + [last]) == multiset(b + [last])
    ensures multiset(a) == multiset(b)
  {
    assert multiset(a) == multiset(a + [last]) - multiset{last};
    assert multiset(b) == multiset(b + [last]) - multiset{last};
  }

  lemma {:induction false} SortedIsUnique<T(!new)>(a: seq<T>, b: seq<T>, leq: (T, T) -> bool)
    requires IsOrder(leq) && IsSorted(a, leq) && IsSorted(b, leq) && KeysAreDistinct(a, leq)
    requires multiset(a) == multiset(b)
    ensures a == b
  {
    if a == [] {
      assert |b| == |multiset(b)| == 0;
    } else {
      LastsAgree(a, b, leq);
      var frontA, frontB, last := a[..|a| - 1], b[..|b| - 1], a[|a| - 1];
      assert a == frontA + [last] && b == frontB + [last];
      FrontsAgree(frontA, frontB, last);
      SortedIsUnique(frontA, frontB, leq);
    }
  }

  /** When no two different elements compare equal, the sorted sequence depends only on what is sorted. */
  lemma SortCanonicalises<T(!new)>(a: seq<T>, b: seq<T>, leq: (T, T) -> bool)
    requires IsOrder(leq) && multiset(a) == multiset(b) && KeysAreDistinct(a, leq)
    ensures Sort(a, leq) == Sort(b, leq)
  {
    SortPermutes(a, leq);
    SortPermutes(b, leq);
    SortSorts(a, leq);
    SortSorts(b, leq);
    forall x | x in Sort(a, leq) ensures x in a {
      assert x in multiset(Sort(a, leq));
    }
    SortedIsUnique(Sort(a, leq), Sort(b, leq), leq);
  }
}

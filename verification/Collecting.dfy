/** Picking some of the elements of a sequence, in order. */
module Collecting {
  import opened Wrappers

  function Collect<A, B>(s: seq<A>, pick: A -> Option<B>): seq<B> {
    if s == [] then []
    else
      var front, last := Collect(s[..|s| - 1], pick), pick(s[|s| - 1]);
      if last.Some? then front + [last.value] else front
  }

  lemma CollectAppend<A, B>(s: seq<A>, x: A, pick: A -> Option<B>)
    ensures Collect(s + [x], pick) == Collect(s, pick) + (if pick(x).Some? then [pick(x).value] else [])
  {
    assert (s + [x])[..|s|] == s;
  }

  lemma {:induction false} CollectConcat<A, B>(a: seq<A>, b: seq<A>, pick: A -> Option<B>)
    ensures Collect(a + b, pick) == Collect(a, pick) + Collect(b, pick)
  {
    if b == [] {
      assert a + b == a;
    } else {
      var front, last := b[..|b| - 1], b[|b| - 1];
      assert b == front + [last] && a + b == (a + front) + [last];
      CollectConcat(a, front, pick);
      CollectAppend(a + front, last, pick);
      CollectAppend(front, last, pick);
    }
  }

  lemma CollectOfThree<A, B>(a: seq<A>, b: seq<A>, c: seq<A>, pick: A -> Option<B>)
    ensures Collect(a + (b + c), pick) == Collect(a, pick) + (Collect(b, pick) + Collect(c, pick))
  {
    CollectConcat(a, b + c, pick);
    CollectConcat(b, c, pick);
  }

  lemma MoveBack<A>(a: seq<A>, b: seq<A>, c: seq<A>)
    ensures multiset(a + (b + c)) == multiset(a + (c + b))
  {
  }

  // Moving one part behind the others permutes what is picked.
  lemma CollectMovedBack<A, B>(a: seq<A>, b: seq<A>, c: seq<A>, pick: A -> Option<B>)
    ensures multiset(Collect(a + (b + c), pick)) == multiset(Collect(a + (c + b), pick))
  {
    CollectOfThree(a, b, c, pick);
    CollectOfThree(a, c, b, pick);
    MoveBack(Collect(a, pick), Collect(b, pick), Collect(c, pick));
  }

  lemma RemoveOne<A>(s: seq<A>, i: nat)
    requires i < |s|
    ensures multiset(s[..i] + s[i + 1..]) == multiset(s) - multiset{s[i]}
  {
    assert s == s[..i] + [s[i]] + s[i + 1..];
  }

  lemma PermutationMeetsLast<A>(a: seq<A>, b: seq<A>) returns (i: nat)
    requires multiset(a) == multiset(b) && a != []
    ensures i < |b| && b[i] == a[|a| - 1]
    ensures multiset(b[..i] + b[i + 1..]) == multiset(a[..|a| - 1])
  {
    var x := a[|a| - 1];
    assert x in multiset(a);
    assert x in b;
    i :| 0 <= i < |b| && b[i] == x;
    RemoveOne(b, i);
    RemoveOne(a, |a| - 1);
    assert a[..|a| - 1] + a[|a|..] == a[..|a| - 1];
  }

  /** What is picked from a permutation is a permutation of what is picked. */
  lemma {:induction false} CollectPermutes<A, B>(a: seq<A>, b: seq<A>, pick: A -> Option<B>)
    requires multiset(a) == multiset(b)
    ensures multiset(Collect(a, pick)) == multiset(Collect(b, pick))
  {
    if a == [] {
      assert |b| == |multiset(b)| == 0;
    } else {
      var i := PermutationMeetsLast(a, b);
      var front, rest, x := a[..|a| - 1], b[..i] + b[i + 1..], a[|a| - 1];
      assert a == front + [x];
      CollectPermutes(front, rest, pick);
      CollectAppend(front, x, pick);
      CollectAppend(rest, x, pick);
      CollectMovedBack(b[..i], [b[i]], b[i + 1..], pick);
      assert b == b[..i] + ([b[i]] + b[i + 1..]) && rest + [x] == b[..i] + (b[i + 1..] + [b[i]]);
    }
  }

  // What both picks let through.
  function Through<A, B, C>(first: A -> Option<B>, second: B -> Option<C>): A -> Option<C> {
    (x: A) => if first(x).Some? then second(first(x).value) else None
  }

  lemma {:induction false} CollectThrough<A, B, C>(s: seq<A>, first: A -> Option<B>, second: B -> Option<C>)
    ensures Collect(Collect(s, first), second) == Collect(s, Through(first, second))
  {
    if s != [] {
      var front, last := s[..|s| - 1], s[|s| - 1];
      CollectThrough(front, first, second);
      if first(last).Some? { CollectAppend(Collect(front, first), first(last).value, second); }
    }
  }

  lemma {:induction false} CollectAgrees<A(!new), B>(s: seq<A>, pick: A -> Option<B>, other: A -> Option<B>)
    requires forall x :: pick(x) == other(x)
    ensures Collect(s, pick) == Collect(s, other)
  {
    if s != [] { CollectAgrees(s[..|s| - 1], pick, other); }
  }

  lemma {:induction false} CollectNothing<A(!new), B>(s: seq<A>, pick: A -> Option<B>)
    requires forall x :: pick(x).None?
    ensures Collect(s, pick) == []
  {
    if s != [] { CollectNothing(s[..|s| - 1], pick); }
  }
}

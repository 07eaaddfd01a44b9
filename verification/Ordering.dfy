/** The order of strings, character by character, and of the keys that records are sorted by. */
module Ordering {
  import opened Wrappers
  import opened Sorting
  import opened Collecting

  predicate AtMost(a: string, b: string) {
    if a == "" then true
    else if b == "" then false
    else a[0] < b[0] || (a[0] == b[0] && AtMost(a[1..], b[1..]))
  }

  lemma {:induction false} AtMostIsTotal(a: string, b: string)
    ensures AtMost(a, b) || AtMost(b, a)
    ensures AtMost(a, b) && AtMost(b, a) ==> a == b
  {
    if a != "" && b != "" && a[0] == b[0] {
      AtMostIsTotal(a[1..], b[1..]);
      assert a == [a[0]] + a[1..] && b == [b[0]] + b[1..];
    }
  }

  lemma {:induction false} AtMostIsTransitive(a: string, b: string, c: string)
    requires AtMost(a, b) && AtMost(b, c)
    ensures AtMost(a, c)
  {
    if a != "" && b != "" && c != "" && a[0] == b[0] == c[0] {
      AtMostIsTransitive(a[1..], b[1..], c[1..]);
    }
  }

  /** A path is its components. */
  type Path = seq<string>

  predicate PathAtMost(a: Path, b: Path) {
    if a == [] then true
    else if b == [] then false
    else if a[0] == b[0] then PathAtMost(a[1..], b[1..])
    else AtMost(a[0], b[0])
  }

  lemma {:induction false} PathAtMostIsTotal(a: Path, b: Path)
    ensures PathAtMost(a, b) || PathAtMost(b, a)
    ensures PathAtMost(a, b) && PathAtMost(b, a) ==> a == b
  {
    if a != [] && b != [] {
      AtMostIsTotal(a[0], b[0]);
      if a[0] == b[0] {
        PathAtMostIsTotal(a[1..], b[1..]);
        assert a == [a[0]] + a[1..] && b == [b[0]] + b[1..];
      }
    }
  }

  lemma {:induction false} PathAtMostIsTransitive(a: Path, b: Path, c: Path)
    requires PathAtMost(a, b) && PathAtMost(b, c)
    ensures PathAtMost(a, c)
  {
    if a != [] && b != [] && c != [] {
      if a[0] == b[0] == c[0] {
        PathAtMostIsTransitive(a[1..], b[1..], c[1..]);
      } else if a[0] != b[0] && b[0] != c[0] {
        AtMostIsTransitive(a[0], b[0], c[0]);
        AtMostIsTotal(a[0], b[0]);
      }
    }
  }

  // Where two sequences first differ, the first is smaller; or there is no such place and it is the shorter one.
  ghost predicate DiffersUpwards<T(!new)>(a: seq<T>, b: seq<T>, smaller: (T, T) -> bool) {
    a <= b || exists k :: 0 <= k < |a| && k < |b| && a[..k] == b[..k] && a[k] != b[k] && smaller(a[k], b[k])
  }

  /** Strings stand in the order of the first character in which they differ, a beginning before the longer string. */
  lemma {:induction false} AtMostIsLexicographic(a: string, b: string)
    ensures AtMost(a, b) <==> DiffersUpwards(a, b, (c: char, d: char) => c < d)
  {
    if a != "" && b != "" {
      DiffersAtFirst(a, b, (c: char, d: char) => c < d);
      if a[0] == b[0] { AtMostIsLexicographic(a[1..], b[1..]); }
    }
  }

  /** Paths stand in the order of the first component in which they differ. */
  lemma {:induction false} PathAtMostIsLexicographic(a: Path, b: Path)
    ensures PathAtMost(a, b) <==> DiffersUpwards(a, b, (c: string, d: string) => AtMost(c, d))
  {
    if a != [] && b != [] {
      DiffersAtFirst(a, b, (c: string, d: string) => AtMost(c, d));
      if a[0] == b[0] { PathAtMostIsLexicographic(a[1..], b[1..]); }
    }
  }

  lemma DiffersAtFirst<T(!new)>(a: seq<T>, b: seq<T>, smaller: (T, T) -> bool)
    requires a != [] && b != []
    ensures DiffersUpwards(a, b, smaller) <==>
              if a[0] == b[0] then DiffersUpwards(a[1..], b[1..], smaller) else smaller(a[0], b[0])
  {
    assert a == [a[0]] + a[1..] && b == [b[0]] + b[1..];
    if a[0] == b[0] {
      assert a <= b <==> a[1..] <= b[1..];
      forall k | 0 < k < |a| && k < |b| ensures a[..k] == b[..k] <==> a[1..][..k - 1] == b[1..][..k - 1] {
        assert a[..k] == [a[0]] + a[1..][..k - 1] && b[..k] == [b[0]] + b[1..][..k - 1];
      }
      if DiffersUpwards(a[1..], b[1..], smaller) && !(a[1..] <= b[1..]) {
        var k :| 0 <= k < |a[1..]| && k < |b[1..]| && a[1..][..k] == b[1..][..k] && a[1..][k] != b[1..][k]
                 && smaller(a[1..][k], b[1..][k]);
        assert a[..k + 1] == b[..k + 1] && a[k + 1] != b[k + 1];
      }
      if DiffersUpwards(a, b, smaller) && !(a <= b) {
        var k :| 0 <= k < |a| && k < |b| && a[..k] == b[..k] && a[k] != b[k] && smaller(a[k], b[k]);
        assert a[1..][..k - 1] == b[1..][..k - 1] && a[1..][k - 1] != b[1..][k - 1];
      }
    } else {
      assert a[..0] == b[..0];
      assert !(a <= b);
      assert forall k :: 0 < k < |a| && k < |b| ==> a[..k][0] == a[0] && b[..k][0] == b[0];
    }
  }

  /** A number, then a string, then another string. */
  datatype Key = Key(order: nat, first: string, second: string)

  predicate KeyAtMost(a: Key, b: Key) {
    || a.order < b.order
    || (a.order == b.order && (if a.first == b.first then AtMost(a.second, b.second) else AtMost(a.first, b.first)))
  }

  lemma KeysAreTotal(a: Key, b: Key)
    ensures KeyAtMost(a, b) || KeyAtMost(b, a)
    ensures KeyAtMost(a, b) && KeyAtMost(b, a) ==> a == b
  {
    AtMostIsTotal(a.first, b.first);
    AtMostIsTotal(a.second, b.second);
  }

  lemma KeysAreTransitive(a: Key, b: Key, c: Key)
    requires KeyAtMost(a, b) && KeyAtMost(b, c)
    ensures KeyAtMost(a, c)
  {
    AtMostIsTotal(a.first, b.first);
    AtMostIsTotal(b.first, c.first);
    if AtMost(a.first, b.first) && AtMost(b.first, c.first) { AtMostIsTransitive(a.first, b.first, c.first); }
    if AtMost(a.second, b.second) && AtMost(b.second, c.second) { AtMostIsTransitive(a.second, b.second, c.second); }
  }

  function ByKey<T>(key: T -> Key): (T, T) -> bool {
    (a: T, b: T) => KeyAtMost(key(a), key(b))
  }

  lemma ByKeyIsOrder<T(!new)>(key: T -> Key)
    ensures IsOrder(ByKey(key))
  {
    forall a: T, b: T ensures ByKey(key)(a, b) || ByKey(key)(b, a) {
      KeysAreTotal(key(a), key(b));
    }
    forall a: T, b: T, c: T | ByKey(key)(a, b) && ByKey(key)(b, c) ensures ByKey(key)(a, c) {
      KeysAreTransitive(key(a), key(b), key(c));
    }
  }

  // The elements carry different values of `name`.
  ghost predicate NamesAreDistinct<T>(s: seq<T>, name: T -> string) {
    forall i, j :: 0 <= i < j < |s| ==> name(s[i]) != name(s[j])
  }

  /** When the key holds a name that no two elements share, sorting forgets the original order. */
  lemma SortByKeyCanonicalises<T(!new)>(a: seq<T>, b: seq<T>, key: T -> Key, name: T -> string)
    requires multiset(a) == multiset(b) && NamesAreDistinct(a, name)
    requires forall x, y :: key(x) == key(y) ==> name(x) == name(y)
    ensures Sort(a, ByKey(key)) == Sort(b, ByKey(key))
  {
    ByKeyIsOrder(key);
    forall x, y | x in a && y in a && ByKey(key)(x, y) && ByKey(key)(y, x) ensures x == y {
      KeysAreTotal(key(x), key(y));
    }
    SortCanonicalises(a, b, ByKey(key));
  }

  // ---------------------------------------------------------------------------------------------
  // Stability
  // ---------------------------------------------------------------------------------------------

  function WithKey<T>(key: T -> Key, k: Key): T -> Option<T> {
    (x: T) => if key(x) == k then Some(x) else None
  }

  // An element is inserted behind those of its own key: it moves past larger keys only.
  lemma {:induction false} InsertIsStable<T>(s: seq<T>, x: T, key: T -> Key, k: Key)
    ensures Collect(Insert(s, x, ByKey(key)), WithKey(key, k)) == Collect(s + [x], WithKey(key, k))
  {
    var pick := WithKey(key, k);
    CollectAppend(s, x, pick);
    if s != [] && !ByKey(key)(s[|s| - 1], x) {
      var front, last := s[..|s| - 1], s[|s| - 1];
      KeysAreTotal(key(last), key(x));
      InsertIsStable(front, x, key, k);
      CollectAppend(front, x, pick);
      CollectAppend(Insert(front, x, ByKey(key)), last, pick);
    }
  }

  /** The elements of one key keep their order when they are sorted. */
  lemma {:induction false} SortIsStable<T>(s: seq<T>, key: T -> Key, k: Key)
    ensures Collect(Sort(s, ByKey(key)), WithKey(key, k)) == Collect(s, WithKey(key, k))
  {
    if s != [] {
      var front, last := s[..|s| - 1], s[|s| - 1];
      SortIsStable(front, key, k);
      InsertIsStable(Sort(front, ByKey(key)), last, key, k);
      CollectAppend(Sort(front, ByKey(key)), last, WithKey(key, k));
    }
  }

  // The elements of each key stand in the same order in both.
  ghost predicate SameOrderPerKey<T>(a: seq<T>, b: seq<T>, key: T -> Key) {
    forall k :: Collect(a, WithKey(key, k)) == Collect(b, WithKey(key, k))
  }

  lemma {:induction false} PickedIsPresent<T>(s: seq<T>, key: T -> Key, k: Key)
    ensures Collect(s, WithKey(key, k)) != [] ==> exists x :: x in s && key(x) == k
  {
    if s != [] {
      PickedIsPresent(s[..|s| - 1], key, k);
      assert s[|s| - 1] in s;
    }
  }

  lemma LastKeyIsPresent<T(!new)>(a: seq<T>, b: seq<T>, key: T -> Key)
    requires SameOrderPerKey(a, b, key) && IsSorted(b, ByKey(key)) && a != []
    ensures b != [] && KeyAtMost(key(a[|a| - 1]), key(b[|b| - 1]))
  {
    var k := key(a[|a| - 1]);
    assert Collect(a, WithKey(key, k)) == Collect(b, WithKey(key, k));
    PickedIsPresent(b, key, k);
    var x :| x in b && key(x) == k;
    ByKeyIsOrder(key);
    LastIsGreatest(b, x, ByKey(key));
  }

  lemma SameLast<T>(a: seq<T>, b: seq<T>, x: T, y: T, key: T -> Key)
    requires SameOrderPerKey(a + [x], b + [y], key) && key(x) == key(y)
    ensures x == y && SameOrderPerKey(a, b, key)
  {
    forall k ensures Collect(a, WithKey(key, k)) == Collect(b, WithKey(key, k)) && (key(x) == k ==> x == y) {
      var pick := WithKey(key, k);
      assert Collect(a + [x], pick) == Collect(b + [y], pick);
      CollectAppend(a, x, pick);
      CollectAppend(b, y, pick);
      if key(x) == k { SameEnds(Collect(a, pick), x, Collect(b, pick), y); }
    }
    assert Collect(a, WithKey(key, key(x))) == Collect(b, WithKey(key, key(x)));
  }

  lemma SameEnds<T>(a: seq<T>, x: T, b: seq<T>, y: T)
    requires a + [x] == b + [y]
    ensures a == b && x == y
  {
    assert (a + [x])[..|a|] == a && (b + [y])[..|b|] == b;
    assert (a + [x])[|a|] == x && (b + [y])[|b|] == y;
  }

  lemma {:induction false} SortedByOrderPerKey<T(!new)>(a: seq<T>, b: seq<T>, key: T -> Key)
    requires SameOrderPerKey(a, b, key) && IsSorted(a, ByKey(key)) && IsSorted(b, ByKey(key))
    ensures a == b
    decreases |a|
  {
    if a == [] {
      if b != [] { LastKeyIsPresent(b, a, key); }
    } else {
      LastKeyIsPresent(a, b, key);
      LastKeyIsPresent(b, a, key);
      var x, y := a[|a| - 1], b[|b| - 1];
      KeysAreTotal(key(x), key(y));
      assert a == a[..|a| - 1] + [x] && b == b[..|b| - 1] + [y];
      SameLast(a[..|a| - 1], b[..|b| - 1], x, y, key);
      SortedByOrderPerKey(a[..|a| - 1], b[..|b| - 1], key);
    }
  }

  /** Two sequences sort to the same one exactly when the elements of each key stand in the same order in both. */
  lemma SortsAlikeExactly<T(!new)>(a: seq<T>, b: seq<T>, key: T -> Key)
    ensures Sort(a, ByKey(key)) == Sort(b, ByKey(key)) <==> SameOrderPerKey(a, b, key)
  {
    forall k ensures Collect(Sort(a, ByKey(key)), WithKey(key, k)) == Collect(a, WithKey(key, k))
                  && Collect(Sort(b, ByKey(key)), WithKey(key, k)) == Collect(b, WithKey(key, k)) {
      SortIsStable(a, key, k);
      SortIsStable(b, key, k);
    }
    if SameOrderPerKey(a, b, key) {
      ByKeyIsOrder(key);
      SortSorts(a, ByKey(key));
      SortSorts(b, ByKey(key));
      SortedByOrderPerKey(Sort(a, ByKey(key)), Sort(b, ByKey(key)), key);
    }
  }

  // ---------------------------------------------------------------------------------------------
  // Maps that are read in the order of their keys
  // ---------------------------------------------------------------------------------------------

  predicate IsLeast(key: string, keys: set<string>) {
    key in keys && forall other :: other in keys ==> AtMost(key, other)
  }

  lemma {:induction false} LeastExists(keys: set<string>)
    requires keys != {}
    ensures exists key :: IsLeast(key, keys)
    decreases |keys|
  {
    var some :| some in keys;
    var rest := keys - {some};
    AtMostIsTotal(some, some);
    if rest == {} {
      forall other | other in keys ensures AtMost(some, other) { assert other !in rest; }
      assert IsLeast(some, keys);
    } else {
      LeastExists(rest);
      var least :| IsLeast(least, rest);
      AtMostIsTotal(some, least);
      if AtMost(some, least) {
        forall other | other in keys ensures AtMost(some, other) {
          if other != some { AtMostIsTransitive(some, least, other); }
        }
        assert IsLeast(some, keys);
      } else {
        assert IsLeast(least, keys);
      }
    }
  }

  lemma LeastIsUnique(a: string, b: string, keys: set<string>)
    requires IsLeast(a, keys) && IsLeast(b, keys)
    ensures a == b
  {
    AtMostIsTotal(a, b);
  }

  function Least(keys: set<string>): (key: string)
    requires keys != {}
    ensures IsLeast(key, keys)
  {
    LeastExists(keys);
    assert forall a, b :: IsLeast(a, keys) && IsLeast(b, keys) ==> a == b by {
      forall a, b | IsLeast(a, keys) && IsLeast(b, keys) ensures a == b { LeastIsUnique(a, b, keys); }
    }
    var key :| IsLeast(key, keys);
    key
  }

  function KeysInOrder(keys: set<string>): seq<string>
    decreases |keys|
  {
    if keys == {} then []
    else
      var key := Least(keys);
      [key] + KeysInOrder(keys - {key})
  }

  ghost predicate StrictlyOrdered(s: seq<string>) {
    forall i, j :: 0 <= i < j < |s| ==> AtMost(s[i], s[j]) && s[i] != s[j]
  }

  lemma PrependLeast(key: string, s: seq<string>)
    requires StrictlyOrdered(s) && forall other :: other in s ==> AtMost(key, other) && key != other
    ensures StrictlyOrdered([key] + s)
  {
  }

  // The keys in order, each once.
  lemma {:induction false} KeysInOrderAreComplete(keys: set<string>)
    ensures forall key :: key in KeysInOrder(keys) <==> key in keys
    ensures StrictlyOrdered(KeysInOrder(keys))
    decreases |keys|
  {
    if keys != {} {
      var key := Least(keys);
      KeysInOrderAreComplete(keys - {key});
      PrependLeast(key, KeysInOrder(keys - {key}));
    }
  }

  function Values<V>(m: map<string, V>): seq<V> {
    var keys := KeysInOrder(m.Keys);
    KeysInOrderAreComplete(m.Keys);
    seq(|keys|, i requires 0 <= i < |keys| => assert keys[i] in keys; m[keys[i]])
  }
}

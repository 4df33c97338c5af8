/** `ORDER BY` as the database applies it: rows sorted by a key compared
    lexicographically. A text column is keyed by its character codes
    (code-point order); a descending order negates the key. */
module Ordering {

  type Key = seq<int>

  /** Lexicographic order on keys; a proper prefix comes first. */
  predicate KeyLe(a: Key, b: Key)
    decreases |a|
  {
    a == [] || (b != [] && (a[0] < b[0] || (a[0] == b[0] && KeyLe(a[1..], b[1..]))))
  }

  lemma {:induction false} KeyLeTotal(a: Key, b: Key)
    ensures KeyLe(a, b) || KeyLe(b, a)
    decreases |a|
  {
    if a != [] && b != [] && a[0] == b[0] {
      KeyLeTotal(a[1..], b[1..]);
    }
  }

  lemma {:induction false} KeyLeTransitive(a: Key, b: Key, c: Key)
    requires KeyLe(a, b) && KeyLe(b, c)
    ensures KeyLe(a, c)
    decreases |a|
  {
    if a != [] && a[0] == b[0] && b[0] == c[0] {
      KeyLeTransitive(a[1..], b[1..], c[1..]);
    }
  }

  lemma {:induction false} KeyLeAntisymmetric(a: Key, b: Key)
    requires KeyLe(a, b) && KeyLe(b, a)
    ensures a == b
    decreases |a|
  {
    if a != [] {
      KeyLeAntisymmetric(a[1..], b[1..]);
      assert a == [a[0]] + a[1..] && b == [b[0]] + b[1..];
    }
  }

  /** The sort key of a text column. */
  function TextKey(s: string): (k: Key)
    ensures |k| == |s|
  {
    seq(|s|, i requires 0 <= i < |s| => s[i] as int)
  }

  /** Code-point order on text. */
  predicate TextLe(a: string, b: string)
  {
    KeyLe(TextKey(a), TextKey(b))
  }

  /** `xs` is in ascending order of `key`. */
  predicate SortedBy<T>(xs: seq<T>, key: T -> Key)
  {
    forall i, j :: 0 <= i < j < |xs| ==> KeyLe(key(xs[i]), key(xs[j]))
  }

  /** Inserts `x` in front of the first element it does not follow. */
  function InsertBy<T(!new)>(x: T, xs: seq<T>, key: T -> Key): (r: seq<T>)
    ensures multiset(r) == multiset(xs) + multiset{x}
    ensures forall y :: y in r <==> y == x || y in xs
  {
    if xs == [] then [x]
    else if KeyLe(key(x), key(xs[0])) then [x] + xs
    else
      assert xs == [xs[0]] + xs[1..];
      [xs[0]] + InsertBy(x, xs[1..], key)
  }

  /** A sorted sequence starts with a least element. */
  lemma HeadIsLeast<T>(xs: seq<T>, key: T -> Key)
    requires xs != [] && SortedBy(xs, key)
    ensures forall y :: y in xs[1..] ==> KeyLe(key(xs[0]), key(y))
  {
    forall y | y in xs[1..]
      ensures KeyLe(key(xs[0]), key(y))
    {
      var k :| 0 <= k < |xs[1..]| && xs[1..][k] == y;
      assert xs[k + 1] == y;
    }
  }

  /** A sequence is sorted when its head is least and its tail is sorted. */
  lemma ConsSorted<T>(h: T, t: seq<T>, key: T -> Key)
    requires SortedBy(t, key)
    requires forall y :: y in t ==> KeyLe(key(h), key(y))
    ensures SortedBy([h] + t, key)
  {
    var r := [h] + t;
    forall i, j | 0 <= i < j < |r|
      ensures KeyLe(key(r[i]), key(r[j]))
    {
      assert r[j] == t[j - 1];
      if i > 0 {
        assert r[i] == t[i - 1];
      }
    }
  }

  lemma {:induction false} InsertBySorted<T(!new)>(x: T, xs: seq<T>, key: T -> Key)
    requires SortedBy(xs, key)
    ensures SortedBy(InsertBy(x, xs, key), key)
  {
    if xs == [] {
    } else if KeyLe(key(x), key(xs[0])) {
      HeadIsLeast(xs, key);
      forall y | y in xs
        ensures KeyLe(key(x), key(y))
      {
        if y != xs[0] {
          assert y in xs[1..];
          KeyLeTransitive(key(x), key(xs[0]), key(y));
        }
      }
      ConsSorted(x, xs, key);
    } else {
      HeadIsLeast(xs, key);
      KeyLeTotal(key(x), key(xs[0]));
      assert SortedBy(xs[1..], key);
      InsertBySorted(x, xs[1..], key);
      ConsSorted(xs[0], InsertBy(x, xs[1..], key), key);
    }
  }

  /** `ORDER BY key`: the rows in ascending order of `key`, none added or lost. */
  function SortBy<T(!new)>(xs: seq<T>, key: T -> Key): (r: seq<T>)
    ensures SortedBy(r, key)
    ensures multiset(r) == multiset(xs)
  {
    if xs == [] then []
    else
      assert xs == [xs[0]] + xs[1..];
      var sortedTail := SortBy(xs[1..], key);
      InsertBySorted(xs[0], sortedTail, key);
      InsertBy(xs[0], sortedTail, key)
  }
}

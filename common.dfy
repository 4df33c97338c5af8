/** Values and sequence helpers shared by every page of the application. */
module Common {

  /** A value that may be missing: SQL NULL, a JavaScript `null`/`undefined`,
      or a lookup that found nothing. */
  datatype Option<T> = None | Some(value: T)

  /** Row identifiers. The hosted database hands out opaque UUID strings;
      only their equality matters to the application. */
  type Id = string

  /** `xs.filter(p)`: the elements of `xs` that satisfy `p`, in order. */
  function Filter<T(!new)>(p: T -> bool, xs: seq<T>): (r: seq<T>)
    ensures |r| <= |xs|
    ensures forall x :: x in r <==> x in xs && p(x)
  {
    if xs == [] then []
    else
      assert forall x :: x in xs <==> x == xs[0] || x in xs[1..];
      if p(xs[0]) then [xs[0]] + Filter(p, xs[1..]) else Filter(p, xs[1..])
  }

  /** A filter whose predicate holds nowhere keeps nothing. */
  lemma {:induction false} FilterNone<T(!new)>(p: T -> bool, xs: seq<T>)
    requires forall x :: x in xs ==> !p(x)
    ensures Filter(p, xs) == []
  {
    if xs != [] {
      FilterNone(p, xs[1..]);
    }
  }

  /** A filter whose predicate holds everywhere keeps the whole sequence. */
  lemma {:induction false} FilterKeepsAll<T(!new)>(p: T -> bool, xs: seq<T>)
    requires forall x :: x in xs ==> p(x)
    ensures Filter(p, xs) == xs
  {
    if xs != [] {
      FilterKeepsAll(p, xs[1..]);
    }
  }

  /** Filtering distributes over concatenation. */
  lemma {:induction false} FilterAppend<T(!new)>(p: T -> bool, xs: seq<T>, ys: seq<T>)
    ensures Filter(p, xs + ys) == Filter(p, xs) + Filter(p, ys)
  {
    if xs == [] {
      assert xs + ys == ys;
    } else {
      assert (xs + ys)[1..] == xs[1..] + ys;
      FilterAppend(p, xs[1..], ys);
    }
  }

  /** `xs.find(p)`: the first element satisfying `p`, if any. */
  function Find<T(==,!new)>(p: T -> bool, xs: seq<T>): (r: Option<T>)
    ensures r.None? <==> forall x :: x in xs ==> !p(x)
    ensures r.Some? ==> exists i :: 0 <= i < |xs| && xs[i] == r.value && p(r.value)
                                    && forall j :: 0 <= j < i ==> !p(xs[j])
  {
    if xs == [] then None
    else if p(xs[0]) then Some(xs[0])
    else
      var r := Find(p, xs[1..]);
      assert forall x :: x in xs <==> x == xs[0] || x in xs[1..];
      if r.Some? then
        var i :| 0 <= i < |xs[1..]| && xs[1..][i] == r.value && p(r.value)
                 && forall j :: 0 <= j < i ==> !p(xs[1..][j]);
        assert xs[i + 1] == r.value;
        assert forall j :: 1 <= j < i + 1 ==> !p(xs[j]) by {
          forall j | 1 <= j < i + 1 ensures !p(xs[j]) {
            assert xs[j] == xs[1..][j - 1];
          }
        }
        r
      else r
  }

  /** Searching a filtered sequence finds what searching the whole one
      finds, when every element searched for passes the filter. */
  lemma {:induction false} FindFilter<T(!new)>(p: T -> bool, q: T -> bool, xs: seq<T>)
    requires forall x :: x in xs && p(x) ==> q(x)
    ensures Find(p, Filter(q, xs)) == Find(p, xs)
  {
    if xs != [] {
      assert forall x :: x in xs[1..] ==> x in xs;
      FindFilter(p, q, xs[1..]);
    }
  }

  /** `find` returns the first element that passes, whatever follows it. */
  lemma FindFirst<T(!new)>(p: T -> bool, xs: seq<T>, i: int)
    requires 0 <= i < |xs| && p(xs[i])
    requires forall j :: 0 <= j < i ==> !p(xs[j])
    ensures Find(p, xs) == Some(xs[i])
  {
    assert xs[i] in xs;
    var f := Find(p, xs);
    var k :| 0 <= k < |xs| && xs[k] == f.value && p(f.value) && forall j :: 0 <= j < k ==> !p(xs[j]);
    assert !(k < i) && !(i < k);
  }

  /** JavaScript's `s || fallback` on a text that may be missing: the text
      when it is present and non-empty, `fallback` otherwise. */
  function Or(s: Option<string>, fallback: string): string
  {
    if s.Some? && s.value != "" then s.value else fallback
  }

  /** `xs.filter(p).length`. */
  function Count<T(!new)>(p: T -> bool, xs: seq<T>): nat
  {
    |Filter(p, xs)|
  }

  /** JavaScript's `s.startsWith(prefix)`. */
  predicate StartsWith(s: string, prefix: string)
  {
    prefix <= s
  }

  /** JavaScript's `s.includes(t)`: `t` occurs somewhere in `s`, case-sensitively. */
  predicate Contains(s: string, t: string)
    decreases |s|
  {
    t <= s || (s != [] && Contains(s[1..], t))
  }

  /** `Contains` is substring search: `t` occurs in `s` at some position. */
  lemma {:induction false} ContainsAt(s: string, t: string)
    ensures Contains(s, t) <==> exists i :: 0 <= i <= |s| && t <= s[i..]
    decreases |s|
  {
    if s != [] {
      ContainsAt(s[1..], t);
      if exists i :: 0 <= i <= |s| && t <= s[i..] {
        var i :| 0 <= i <= |s| && t <= s[i..];
        if i > 0 {
          assert s[1..][i - 1..] == s[i..];
        }
      }
      if exists i :: 0 <= i <= |s[1..]| && t <= s[1..][i..] {
        var i :| 0 <= i <= |s[1..]| && t <= s[1..][i..];
        assert s[1..][i..] == s[i + 1..];
      }
    }
  }

  /** `toLowerCase()` on one character. Only the ASCII letters have a case
      mapping here; Arabic script has no letter case. */
  function LowerChar(c: char): char
  {
    if 'A' <= c <= 'Z' then (c as int + 32) as char else c
  }

  /** `s.toLowerCase()`, character by character. */
  function Lower(s: string): string
  {
    seq(|s|, i requires 0 <= i < |s| => LowerChar(s[i]))
  }

  /** Every id occurs at most once. */
  predicate Unique(ids: seq<Id>)
  {
    forall i, j :: 0 <= i < j < |ids| ==> ids[i] != ids[j]
  }

  /** The length of the longest string in `ss`. */
  function MaxLength(ss: seq<string>): (m: nat)
    ensures forall s :: s in ss ==> |s| <= m
  {
    if ss == [] then 0
    else
      var rest := MaxLength(ss[1..]);
      assert forall s :: s in ss ==> s == ss[0] || s in ss[1..];
      if |ss[0]| > rest then |ss[0]| else rest
  }

  /** The id the database gives a newly inserted row: one not in use
      anywhere. The model picks a string longer than every id in use. */
  function FreshId(used: seq<Id>): (r: Id)
    ensures r !in used
  {
    seq(MaxLength(used) + 1, _ => '#')
  }

  /** The distinct elements of `xs` in order of first occurrence, as both
      `[...new Set(xs)]` and `xs.filter((x, i) => i === xs.indexOf(x))` give them. */
  function Distinct<T(==,!new)>(xs: seq<T>): (r: seq<T>)
    ensures forall x :: x in r <==> x in xs
    ensures forall i, j :: 0 <= i < j < |r| ==> r[i] != r[j]
    ensures xs != [] ==> r != [] && r[0] == xs[0]
  {
    DistinctAfter(xs, {})
  }

  /** The elements of `xs` not in `seen`, each once, in order of first occurrence. */
  function DistinctAfter<T(==,!new)>(xs: seq<T>, seen: set<T>): (r: seq<T>)
    ensures forall x :: x in r <==> x in xs && x !in seen
    ensures forall i, j :: 0 <= i < j < |r| ==> r[i] != r[j]
  {
    if xs == [] then []
    else if xs[0] in seen then
      assert forall x :: x in xs && x !in seen <==> x in xs[1..] && x !in seen;
      DistinctAfter(xs[1..], seen)
    else
      var rest := DistinctAfter(xs[1..], seen + {xs[0]});
      assert forall x :: x in xs <==> x == xs[0] || x in xs[1..];
      [xs[0]] + rest
  }

  /** The elements `xs[i]` whose position `offset + i` is not in `failed`:
      of a run of database writes numbered from `offset`, those that took effect. */
  function Survivors<T>(xs: seq<T>, failed: set<nat>, offset: nat): (r: seq<T>)
    ensures |r| <= |xs|
    ensures failed == {} ==> r == xs
    decreases |xs|
  {
    if xs == [] then []
    else if offset in failed then Survivors(xs[1..], failed, offset + 1)
    else [xs[0]] + Survivors(xs[1..], failed, offset + 1)
  }

  /** The survivors of a run, written one element at a time. */
  lemma {:induction false} SurvivorsSnoc<T>(xs: seq<T>, x: T, failed: set<nat>, offset: nat)
    ensures Survivors(xs + [x], failed, offset)
         == Survivors(xs, failed, offset) + (if offset + |xs| in failed then [] else [x])
    decreases |xs|
  {
    if xs == [] {
      assert xs + [x] == [x];
    } else {
      assert (xs + [x])[1..] == xs[1..] + [x];
      SurvivorsSnoc(xs[1..], x, failed, offset + 1);
    }
  }

  /** Four elements appended one at a time are the four appended at once. */
  lemma AppendFour<T>(l: seq<T>, a: T, b: T, c: T, d: T)
    ensures l + [a] + [b] + [c] + [d] == l + [a, b, c, d]
  {
  }
}

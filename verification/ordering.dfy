/** `OrderBy(...).ThenBy(...)` over string keys: a lexicographic order on
    lists of strings (each compared ordinally) and a stable insertion sort
    by such a key. */
module Ordering {
  import opened Text

  /** Lexicographic order on key lists: the first differing component
      decides; a list that is a prefix of another comes first. */
  predicate KeyLeq(a: seq<string>, b: seq<string>) {
    |a| == 0 || (|b| > 0 && ((StrLeq(a[0], b[0]) && a[0] != b[0]) || (a[0] == b[0] && KeyLeq(a[1..], b[1..]))))
  }

  lemma {:induction false} KeyLeqTotal(a: seq<string>, b: seq<string>)
    ensures KeyLeq(a, b) || KeyLeq(b, a)
  {
    if |a| > 0 && |b| > 0 {
      if a[0] == b[0] {
        KeyLeqTotal(a[1..], b[1..]);
      } else {
        StrLeqTotal(a[0], b[0]);
      }
    }
  }

  lemma {:induction false} KeyLeqTransitive(a: seq<string>, b: seq<string>, c: seq<string>)
    requires KeyLeq(a, b) && KeyLeq(b, c)
    ensures KeyLeq(a, c)
  {
    if |a| > 0 {
      if a[0] == b[0] && b[0] == c[0] {
        KeyLeqTransitive(a[1..], b[1..], c[1..]);
      } else if a[0] != b[0] && b[0] != c[0] {
        StrLeqTransitive(a[0], b[0], c[0]);
        if a[0] == c[0] {
          StrLeqAntisymmetric(a[0], b[0]);
        }
      }
    }
  }

  lemma {:induction false} KeyLeqReflexive(a: seq<string>)
    ensures KeyLeq(a, a)
  {
    if |a| > 0 {
      KeyLeqReflexive(a[1..]);
    }
  }

  /** `xs` is in ascending key order. */
  ghost predicate SortedBy<T>(xs: seq<T>, key: T -> seq<string>) {
    forall i, j :: 0 <= i < j < |xs| ==> KeyLeq(key(xs[i]), key(xs[j]))
  }

  /** Inserts `x` before the first element whose key is not below it. */
  function Insert<T>(x: T, xs: seq<T>, key: T -> seq<string>): (r: seq<T>)
    requires SortedBy(xs, key)
    ensures SortedBy(r, key)
    ensures multiset(r) == multiset(xs) + multiset{x}
  {
    if |xs| == 0 then [x]
    else if KeyLeq(key(x), key(xs[0])) then
      InsertFront(x, xs, key);
      [x] + xs
    else
      KeyLeqTotal(key(x), key(xs[0]));
      var rest := Insert(x, xs[1..], key);
      assert xs == [xs[0]] + xs[1..];
      InsertBehind(xs[0], rest, x, xs[1..], key);
      [xs[0]] + rest
  }

  lemma InsertFront<T>(x: T, xs: seq<T>, key: T -> seq<string>)
    requires SortedBy(xs, key) && |xs| > 0 && KeyLeq(key(x), key(xs[0]))
    ensures SortedBy([x] + xs, key)
  {
    var r := [x] + xs;
    forall i, j | 0 <= i < j < |r| ensures KeyLeq(key(r[i]), key(r[j])) {
      if i == 0 && j > 1 {
        KeyLeqTransitive(key(x), key(xs[0]), key(xs[j - 1]));
      }
    }
  }

  lemma InsertBehind<T>(y: T, rest: seq<T>, x: T, tail: seq<T>, key: T -> seq<string>)
    requires SortedBy(rest, key) && SortedBy([y] + tail, key)
    requires KeyLeq(key(y), key(x))
    requires multiset(rest) == multiset(tail) + multiset{x}
    ensures SortedBy([y] + rest, key)
  {
    var r := [y] + rest;
    forall i, j | 0 <= i < j < |r| ensures KeyLeq(key(r[i]), key(r[j])) {
      if i == 0 {
        var z := rest[j - 1];
        assert r[j] == z;
        assert z in multiset(rest);
        if z != x {
          assert z in multiset(tail);
          var m :| 0 <= m < |tail| && tail[m] == z;
          assert ([y] + tail)[m + 1] == z;
          assert ([y] + tail)[0] == y;
        }
      } else {
        assert r[i] == rest[i - 1] && r[j] == rest[j - 1];
      }
    }
  }

  /** A stable insertion sort by key. */
  function SortBy<T>(xs: seq<T>, key: T -> seq<string>): (r: seq<T>)
    ensures SortedBy(r, key)
    ensures multiset(r) == multiset(xs)
    ensures |r| == |xs|
  {
    if |xs| == 0 then []
    else
      var r := Insert(xs[0], SortBy(xs[1..], key), key);
      assert xs == [xs[0]] + xs[1..];
      assert |r| == |multiset(r)|;
      r
  }
}

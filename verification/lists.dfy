/** Filtering and counting over sequences, in the order of the sequence:
    LINQ's `Where`, `Count` and `First` as the repositories and services use
    them. */
module Lists {

  function CountWhere<T>(rows: seq<T>, p: T -> bool): (n: nat)
    ensures n <= |rows|
  {
    if |rows| == 0 then 0 else (if p(rows[0]) then 1 else 0) + CountWhere(rows[1..], p)
  }

  lemma {:induction false} CountWhereAppend<T>(a: seq<T>, b: seq<T>, p: T -> bool)
    ensures CountWhere(a + b, p) == CountWhere(a, p) + CountWhere(b, p)
  {
    if |a| > 0 {
      assert (a + b)[1..] == a[1..] + b;
      CountWhereAppend(a[1..], b, p);
    } else {
      assert a + b == b;
    }
  }

  /** The rows satisfying `p`, in table order. */
  function Filter<T(==,!new)>(rows: seq<T>, p: T -> bool): (r: seq<T>)
    ensures forall e :: e in r <==> e in rows && p(e)
    ensures |r| == CountWhere(rows, p)
  {
    if |rows| == 0 then []
    else if p(rows[0]) then [rows[0]] + Filter(rows[1..], p)
    else Filter(rows[1..], p)
  }

  /** The images under `f` of the rows that satisfy `keep`, in order. */
  function FilterMap<A, B>(rows: seq<A>, keep: A -> bool, f: A -> B): (r: seq<B>)
    ensures |r| <= |rows|
  {
    if |rows| == 0 then []
    else if keep(rows[0]) then [f(rows[0])] + FilterMap(rows[1..], keep, f)
    else FilterMap(rows[1..], keep, f)
  }

  /** An element is in `FilterMap` exactly when it is the image of a kept
      row. */
  lemma {:induction false} FilterMapMembers<A, B>(rows: seq<A>, keep: A -> bool, f: A -> B, y: B)
    ensures y in FilterMap(rows, keep, f) <==> exists x :: x in rows && keep(x) && y == f(x)
  {
    if |rows| > 0 {
      var rest := rows[1..];
      FilterMapMembers(rest, keep, f, y);
      assert rows == [rows[0]] + rest;
      if exists x :: x in rows && keep(x) && y == f(x) {
        var x :| x in rows && keep(x) && y == f(x);
        assert x == rows[0] || x in rest;
      }
    }
  }

  /** Every row is counted by exactly one of a predicate and its negation. */
  lemma {:induction false} CountComplement<T>(rows: seq<T>, p: T -> bool, q: T -> bool)
    requires forall e :: q(e) == !p(e)
    ensures CountWhere(rows, p) + CountWhere(rows, q) == |rows|
  {
    if |rows| > 0 {
      CountComplement(rows[1..], p, q);
    }
  }

  /** A predicate no row satisfies counts nothing. */
  lemma {:induction false} CountNone<T>(rows: seq<T>, p: T -> bool)
    requires forall e :: e in rows ==> !p(e)
    ensures CountWhere(rows, p) == 0
  {
    if |rows| > 0 {
      assert forall e :: e in rows[1..] ==> e in rows;
      CountNone(rows[1..], p);
    }
  }

  /** A predicate every row satisfies counts every row. */
  lemma {:induction false} CountAll<T>(rows: seq<T>, p: T -> bool)
    requires forall e :: e in rows ==> p(e)
    ensures CountWhere(rows, p) == |rows|
  {
    if |rows| > 0 {
      assert forall e :: e in rows[1..] ==> e in rows;
      CountAll(rows[1..], p);
    }
  }

  /** Predicates that agree on every row count the same rows. */
  lemma {:induction false} CountWhereSame<T>(rows: seq<T>, p: T -> bool, q: T -> bool)
    requires forall e :: e in rows ==> p(e) == q(e)
    ensures CountWhere(rows, p) == CountWhere(rows, q)
  {
    if |rows| > 0 {
      assert forall e :: e in rows[1..] ==> e in rows;
      CountWhereSame(rows[1..], p, q);
    }
  }

  /** A predicate that implies another counts no more rows. */
  lemma {:induction false} CountImplied<T>(rows: seq<T>, p: T -> bool, q: T -> bool)
    requires forall e :: p(e) ==> q(e)
    ensures CountWhere(rows, p) <= CountWhere(rows, q)
  {
    if |rows| > 0 {
      CountImplied(rows[1..], p, q);
    }
  }

  /** Two equally long lists whose elements agree on a predicate, position
      by position, count the same elements. */
  lemma {:induction false} CountPairwise<T>(a: seq<T>, b: seq<T>, p: T -> bool)
    requires |a| == |b|
    requires forall i :: 0 <= i < |a| ==> p(a[i]) == p(b[i])
    ensures CountWhere(a, p) == CountWhere(b, p)
  {
    if |a| > 0 {
      CountPairwise(a[1..], b[1..], p);
    }
  }

  /** A predicate that holds exactly when one of two exclusive predicates
      holds counts what the two count together. */
  lemma {:induction false} CountWhereSplit<T>(rows: seq<T>, r: T -> bool, p: T -> bool, q: T -> bool)
    requires forall e :: r(e) == (p(e) || q(e)) && !(p(e) && q(e))
    ensures CountWhere(rows, r) == CountWhere(rows, p) + CountWhere(rows, q)
  {
    if |rows| > 0 {
      CountWhereSplit(rows[1..], r, p, q);
    }
  }

  /** `xs[k]` is the first element satisfying `p`. */
  predicate FirstAt<T>(xs: seq<T>, p: T -> bool, k: int) {
    0 <= k < |xs| && p(xs[k]) && forall i :: 0 <= i < k ==> !p(xs[i])
  }

  predicate AnyIn<T>(xs: seq<T>, p: T -> bool) {
    exists i :: 0 <= i < |xs| && p(xs[i])
  }

  lemma FilterNonEmpty<T(!new)>(xs: seq<T>, p: T -> bool)
    ensures |Filter(xs, p)| > 0 <==> AnyIn(xs, p)
  {
    if |Filter(xs, p)| > 0 {
      assert Filter(xs, p)[0] in Filter(xs, p);
    }
  }

  /** The first element of a filtered list is the first element satisfying
      the filter. */
  lemma {:induction false} FilterHead<T(!new)>(xs: seq<T>, p: T -> bool) returns (k: int)
    requires AnyIn(xs, p)
    ensures FirstAt(xs, p, k) && |Filter(xs, p)| > 0 && Filter(xs, p)[0] == xs[k]
  {
    if p(xs[0]) {
      k := 0;
    } else {
      var i :| 0 <= i < |xs| && p(xs[i]);
      assert xs[1..][i - 1] == xs[i];
      var k' := FilterHead(xs[1..], p);
      k := k' + 1;
    }
  }

  lemma {:induction false} FilterSame<T(!new)>(xs: seq<T>, p: T -> bool, q: T -> bool)
    requires forall i :: 0 <= i < |xs| ==> p(xs[i]) == q(xs[i])
    ensures Filter(xs, p) == Filter(xs, q)
  {
    if |xs| > 0 {
      FilterSame(xs[1..], p, q);
    }
  }

  lemma {:induction false} FilterAll<T(!new)>(xs: seq<T>, p: T -> bool)
    requires forall i :: 0 <= i < |xs| ==> p(xs[i])
    ensures Filter(xs, p) == xs
  {
    if |xs| > 0 {
      FilterAll(xs[1..], p);
    }
  }

  /** Filtering twice is filtering once by both conditions. */
  lemma {:induction false} FilterFilter<T(!new)>(xs: seq<T>, p: T -> bool, q: T -> bool, r: T -> bool)
    requires forall x :: r(x) == (p(x) && q(x))
    ensures Filter(Filter(xs, p), q) == Filter(xs, r)
  {
    if |xs| > 0 {
      FilterFilter(xs[1..], p, q, r);
    }
  }
}

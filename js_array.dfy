/** The few JavaScript array builtins the spell-check plugin relies on,
    stated over Dafny sequences: `undefined` as an option, `filter`,
    `map` and reading an index that may be out of range. */
module JsArray {

  /** A value that may be JavaScript's `undefined`. */
  datatype Option<T> = None | Some(value: T)

  /** `a[k]`: the element at `k`, or `undefined` past the end. */
  function ElementAt<T>(a: seq<T>, k: nat): (r: Option<T>)
    ensures r.Some? <==> k < |a|
    ensures r.Some? ==> r.value == a[k]
  {
    if k < |a| then Some(a[k]) else None
  }

  /** `a` is obtained from `b` by deleting elements, keeping the order of the rest. */
  predicate IsSubsequence<T(==)>(a: seq<T>, b: seq<T>)
    decreases |b|
  {
    if a == [] then true
    else if b == [] then false
    else if a[0] == b[0] then IsSubsequence(a[1..], b[1..])
    else IsSubsequence(a, b[1..])
  }

  /** `a.filter(keep)`. */
  function Filter<T(!new)>(a: seq<T>, keep: T -> bool): (r: seq<T>)
    ensures |r| <= |a|
    ensures forall x :: x in r <==> x in a && keep(x)
  {
    if a == [] then []
    else (if keep(a[0]) then [a[0]] else []) + Filter(a[1..], keep)
  }

  /** `a.map(f)`. */
  function Map<T, U>(a: seq<T>, f: T -> U): (r: seq<U>)
    ensures |r| == |a|
    ensures forall k :: 0 <= k < |a| ==> r[k] == f(a[k])
  {
    if a == [] then [] else [f(a[0])] + Map(a[1..], f)
  }

  /** Filtering only deletes elements and keeps the survivors in their order. */
  lemma {:induction false} FilterIsSubsequence<T(!new)>(a: seq<T>, keep: T -> bool)
    ensures IsSubsequence(Filter(a, keep), a)
  {
    if a != [] {
      FilterIsSubsequence(a[1..], keep);
      if keep(a[0]) {
        assert Filter(a, keep) == [a[0]] + Filter(a[1..], keep);
        assert Filter(a, keep)[1..] == Filter(a[1..], keep);
      } else {
        assert Filter(a, keep) == Filter(a[1..], keep);
        SubsequenceOfTail(Filter(a[1..], keep), a);
      }
    }
  }

  /** A subsequence of the tail of `b` is a subsequence of `b`. */
  lemma {:induction false} SubsequenceOfTail<T>(a: seq<T>, b: seq<T>)
    requires b != []
    requires IsSubsequence(a, b[1..])
    ensures IsSubsequence(a, b)
    decreases |b|, |a|, 1
  {
    if a != [] && a[0] == b[0] {
      // a[1..] is a subsequence of b[1..] because a is one of b[1..]
      DropHead(a, b[1..]);
    }
  }

  /** Dropping the head of a subsequence keeps it a subsequence. */
  lemma {:induction false} DropHead<T>(a: seq<T>, b: seq<T>)
    requires a != []
    requires IsSubsequence(a, b)
    ensures IsSubsequence(a[1..], b)
    decreases |b|, |a|, 0
  {
    if b != [] {
      if a[0] == b[0] {
        SubsequenceOfTail(a[1..], b);
      } else {
        DropHead(a, b[1..]);
        SubsequenceOfTail(a[1..], b);
      }
    }
  }

  /** `(a.concat(b)).filter(keep)` keeps everything kept from `a` before everything kept from `b`. */
  lemma {:induction false} FilterConcat<T(!new)>(a: seq<T>, b: seq<T>, keep: T -> bool)
    ensures Filter(a + b, keep) == Filter(a, keep) + Filter(b, keep)
  {
    if a != [] {
      assert (a + b)[1..] == a[1..] + b;
      FilterConcat(a[1..], b, keep);
    } else {
      assert a + b == b;
    }
  }

  /** Filtering twice with the same test is filtering once. */
  lemma {:induction false} FilterIdempotent<T(!new)>(a: seq<T>, keep: T -> bool)
    ensures Filter(Filter(a, keep), keep) == Filter(a, keep)
  {
    if a != [] {
      FilterIdempotent(a[1..], keep);
      var f := Filter(a, keep);
      if keep(a[0]) {
        assert f == [a[0]] + Filter(a[1..], keep);
        assert f[0] == a[0] && f[1..] == Filter(a[1..], keep);
        assert Filter(f, keep) == [f[0]] + Filter(f[1..], keep);
      } else {
        assert f == Filter(a[1..], keep);
      }
    }
  }

  /** Two tests that agree on every element of `a` filter it alike. */
  lemma {:induction false} FilterAgreeing<T(!new)>(a: seq<T>, p: T -> bool, q: T -> bool)
    requires forall x :: x in a ==> p(x) == q(x)
    ensures Filter(a, p) == Filter(a, q)
  {
    if a != [] {
      FilterAgreeing(a[1..], p, q);
    }
  }

  /** Filtering by `p` and then by `q` is filtering once by a test that asks both. */
  lemma {:induction false} FilterTwice<T(!new)>(a: seq<T>, p: T -> bool, q: T -> bool, both: T -> bool)
    requires forall x :: both(x) == (p(x) && q(x))
    ensures Filter(Filter(a, p), q) == Filter(a, both)
  {
    if a != [] {
      FilterTwice(a[1..], p, q, both);
      var f := Filter(a, p);
      if p(a[0]) {
        assert f == [a[0]] + Filter(a[1..], p);
        assert f[0] == a[0] && f[1..] == Filter(a[1..], p);
        assert Filter(f, q) == (if q(f[0]) then [f[0]] else []) + Filter(f[1..], q);
      } else {
        assert f == Filter(a[1..], p);
      }
    }
  }
}

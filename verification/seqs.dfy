/**
 * Order-preserving selection and projection over sequences: the two operations
 * a boolean-mask DataFrame filter (`df[df[col] == v]`) and a column read
 * (`df[col]`) perform on the rows of a table.
 */
module Seqs {

  /** `a` can be obtained from `b` by deleting elements, keeping the rest in order. */
  ghost predicate IsSubsequence<T>(a: seq<T>, b: seq<T>)
    decreases |b|
  {
    |a| == 0 ||
    (|b| > 0 && ((a[0] == b[0] && IsSubsequence(a[1..], b[1..])) || IsSubsequence(a, b[1..])))
  }

  /** A subsequence of a subsequence is a subsequence. */
  lemma {:induction false} SubsequenceTransitive<T>(a: seq<T>, b: seq<T>, c: seq<T>)
    requires IsSubsequence(a, b) && IsSubsequence(b, c)
    ensures IsSubsequence(a, c)
    decreases |c|
  {
    if |a| > 0 {
      if IsSubsequence(b, c[1..]) {
        SubsequenceTransitive(a, b, c[1..]);
      } else if a[0] == b[0] && IsSubsequence(a[1..], b[1..]) {
        SubsequenceTransitive(a[1..], b[1..], c[1..]);
      } else {
        SubsequenceTransitive(a, b[1..], c[1..]);
      }
    }
  }

  lemma {:induction false} SubsequenceReflexive<T>(s: seq<T>)
    ensures IsSubsequence(s, s)
  {
    if |s| > 0 {
      SubsequenceReflexive(s[1..]);
    }
  }

  /** The elements of `s` that satisfy `p`, in their original order. */
  function Keep<T(!new)>(s: seq<T>, p: T -> bool): (r: seq<T>)
    ensures |r| <= |s|
    ensures forall x :: multiset(r)[x] == if p(x) then multiset(s)[x] else 0
    ensures IsSubsequence(r, s)
  {
    if |s| == 0 then []
    else
      assert s == [s[0]] + s[1..];
      var rest := Keep(s[1..], p);
      if p(s[0]) then
        assert ([s[0]] + rest)[1..] == rest;
        [s[0]] + rest
      else
        rest
  }

  /** The column `f` of the rows `s`. */
  function Project<T, U>(s: seq<T>, f: T -> U): (r: seq<U>)
    ensures |r| == |s|
    ensures forall i :: 0 <= i < |s| ==> r[i] == f(s[i])
  {
    if |s| == 0 then [] else [f(s[0])] + Project(s[1..], f)
  }

  /** Selecting the elements whose `f` is `v` keeps as many as the column `f` holds `v`. */
  lemma {:induction false} KeepCountsProjection<T(!new), U(!new)>(s: seq<T>, f: T -> U, v: U, p: T -> bool)
    requires forall x :: p(x) == (f(x) == v)
    ensures |Keep(s, p)| == multiset(Project(s, f))[v]
  {
    if |s| > 0 {
      KeepCountsProjection(s[1..], f, v, p);
      assert Project(s, f) == [f(s[0])] + Project(s[1..], f);
    }
  }

  /** Every element kept satisfies the predicate. */
  lemma KeepSatisfies<T(!new)>(s: seq<T>, p: T -> bool)
    ensures forall x :: x in Keep(s, p) ==> p(x)
  {
  }

  /** Two selections in a row keep a subsequence whose elements satisfy both predicates. */
  lemma KeepThenKeep<T(!new)>(s: seq<T>, p: T -> bool, q: T -> bool)
    ensures IsSubsequence(Keep(Keep(s, p), q), s)
    ensures forall x :: x in Keep(Keep(s, p), q) ==> p(x) && q(x)
  {
    SubsequenceTransitive(Keep(Keep(s, p), q), Keep(s, p), s);
    KeepSatisfies(s, p);
    KeepSatisfies(Keep(s, p), q);
  }

  /** A subsequence never holds an element more often than the sequence it was taken from. */
  lemma {:induction false} SubsequenceMultiset<T>(a: seq<T>, b: seq<T>)
    requires IsSubsequence(a, b)
    ensures multiset(a) <= multiset(b)
    decreases |b|
  {
    if |a| > 0 {
      assert b == [b[0]] + b[1..];
      if IsSubsequence(a, b[1..]) {
        SubsequenceMultiset(a, b[1..]);
      } else {
        assert a == [a[0]] + a[1..];
        SubsequenceMultiset(a[1..], b[1..]);
      }
    }
  }

  /**
   * `Keep` is characterised by its contract: the one subsequence of `s` holding
   * exactly the elements that satisfy `p`, each as often as in `s`.
   */
  lemma {:induction false} KeepUnique<T(!new)>(s: seq<T>, p: T -> bool, a: seq<T>)
    requires IsSubsequence(a, s)
    requires forall x :: multiset(a)[x] == if p(x) then multiset(s)[x] else 0
    ensures a == Keep(s, p)
    decreases |s|
  {
    if |s| == 0 {
      assert multiset(a) == multiset{};
    } else {
      var x, s' := s[0], s[1..];
      assert s == [x] + s';
      if p(x) {
        if IsSubsequence(a, s') {
          SubsequenceMultiset(a, s');
          assert false;
        }
        assert a == [a[0]] + a[1..];
        assert a[0] == x && IsSubsequence(a[1..], s');
        KeepUnique(s', p, a[1..]);
      } else {
        assert IsSubsequence(a, s');
        KeepUnique(s', p, a);
      }
    }
  }

  /** Keeping what every element already satisfies changes nothing. */
  lemma {:induction false} KeepAll<T(!new)>(s: seq<T>, p: T -> bool)
    requires forall i :: 0 <= i < |s| ==> p(s[i])
    ensures Keep(s, p) == s
  {
    if |s| > 0 {
      KeepAll(s[1..], p);
    }
  }

  /** Keeping what no element satisfies leaves nothing. */
  lemma KeepNone<T(!new)>(s: seq<T>, p: T -> bool)
    requires forall x :: !p(x)
    ensures Keep(s, p) == []
  {
  }

  /** Keeping twice with the same predicate is keeping once. */
  lemma KeepIdempotent<T(!new)>(s: seq<T>, p: T -> bool)
    ensures Keep(Keep(s, p), p) == Keep(s, p)
  {
    var r := Keep(s, p);
    KeepSatisfies(s, p);
    KeepAll(r, p);
  }

  /** Two selections applied one after the other are one selection by their conjunction. */
  lemma {:induction false} KeepKeep<T(!new)>(s: seq<T>, p: T -> bool, q: T -> bool, both: T -> bool)
    requires forall x :: both(x) == (p(x) && q(x))
    ensures Keep(Keep(s, p), q) == Keep(s, both)
  {
    if |s| > 0 {
      KeepKeep(s[1..], p, q, both);
    }
  }

  /** Selections by predicates that agree everywhere agree. */
  lemma {:induction false} KeepSamePredicate<T(!new)>(s: seq<T>, p: T -> bool, q: T -> bool)
    requires forall x :: p(x) == q(x)
    ensures Keep(s, p) == Keep(s, q)
  {
    if |s| > 0 {
      KeepSamePredicate(s[1..], p, q);
    }
  }

  /** The order in which two selections are applied does not matter. */
  lemma KeepCommutes<T(!new)>(s: seq<T>, p: T -> bool, q: T -> bool)
    ensures Keep(Keep(s, p), q) == Keep(Keep(s, q), p)
  {
    var both := x => p(x) && q(x);
    KeepKeep(s, p, q, both);
    KeepKeep(s, q, p, both);
  }
}

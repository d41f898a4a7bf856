/**
 * The column reductions the statistics are built from: the mode
 * (`Series.mode()[0]`), minimum and maximum, the per-value counts of
 * `count_all`, and the ceiling-to-minutes duration totals.
 */
module Aggregates {
  import opened Wrappers
  import opened Orders

  // ---------------------------------------------------------------- mode

  /** In `s`, `r` occurs more often than `x`, or as often and sorts no later. */
  ghost predicate Beats<T>(s: seq<T>, le: (T, T) -> bool, r: T, x: T) {
    multiset(s)[x] < multiset(s)[r] || (multiset(s)[x] == multiset(s)[r] && le(r, x))
  }

  /**
   * `r` is the first entry of `Series.mode()`: a value of `s` that no value
   * occurs more often than, and the smallest of the values tied with it.
   */
  ghost predicate IsMode<T>(s: seq<T>, le: (T, T) -> bool, r: T) {
    && r in s
    && (forall x :: x in s ==> multiset(s)[x] <= multiset(s)[r])
    && (forall x :: x in s && multiset(s)[x] == multiset(s)[r] ==> le(r, x))
  }

  /** Scans `s` from position `i`, keeping the best candidate seen so far. */
  function ModeFrom<T(==,!new)>(s: seq<T>, le: (T, T) -> bool, i: nat, best: T): (r: T)
    requires TotalOrder(le)
    requires i <= |s| && best in s
    requires forall j :: 0 <= j < i ==> Beats(s, le, best, s[j])
    ensures r in s
    ensures forall j :: 0 <= j < |s| ==> Beats(s, le, r, s[j])
    decreases |s| - i
  {
    if i == |s| then best
    else
      var x := s[i];
      if multiset(s)[x] > multiset(s)[best] || (multiset(s)[x] == multiset(s)[best] && le(x, best)) then
        assert forall j :: 0 <= j < i + 1 ==> Beats(s, le, x, s[j]) by {
          forall j | 0 <= j < i + 1 ensures Beats(s, le, x, s[j]) {
            if j < i {
              assert Beats(s, le, best, s[j]);
              if multiset(s)[s[j]] == multiset(s)[x] {
                assert multiset(s)[x] == multiset(s)[best] && le(x, best);
                assert le(best, s[j]);
              }
            } else {
              assert le(x, x);
            }
          }
        }
        ModeFrom(s, le, i + 1, x)
      else
        ModeFrom(s, le, i + 1, best)
  }

  /** `Series.mode()[0]`; the source indexes an empty mode list on an empty column, hence the precondition. */
  function Mode<T(==,!new)>(s: seq<T>, le: (T, T) -> bool): (r: T)
    requires |s| > 0 && TotalOrder(le)
    ensures IsMode(s, le, r)
  {
    ModeFrom(s, le, 0, s[0])
  }

  /** A column has exactly one mode in the sense of `IsMode`, so `Mode` is that value. */
  lemma ModeUnique<T(!new)>(s: seq<T>, le: (T, T) -> bool, a: T, b: T)
    requires TotalOrder(le)
    requires IsMode(s, le, a) && IsMode(s, le, b)
    ensures a == b
  {
  }

  /** The months `[1, 1, 3, 1]` have mode 1. */
  lemma ModeOfMonthsExample()
    ensures Mode([1, 1, 3, 1], IntLe) == 1
  {
  }

  /** Ties go to the smallest value: `[3, 1, 3, 1]` has mode 1. */
  lemma ModeTieExample()
    ensures Mode([3, 1, 3, 1], IntLe) == 1
  {
  }

  // ---------------------------------------------------------------- missing entries

  /** `Series.dropna()`: the non-missing entries of a column, in order. */
  function Present<T(!new)>(col: seq<Option<T>>): (r: seq<T>)
    ensures forall x :: multiset(r)[x] == multiset(col)[Some(x)]
    ensures |r| == |col| - multiset(col)[None]
  {
    if |col| == 0 then []
    else
      assert col == [col[0]] + col[1..];
      match col[0]
      case None => Present(col[1..])
      case Some(v) => [v] + Present(col[1..])
  }

  lemma PresentMembership<T(!new)>(col: seq<Option<T>>, x: T)
    ensures x in Present(col) <==> Some(x) in col
  {
  }

  // ---------------------------------------------------------------- min / max

  /** `Series.min()`. */
  function Min(s: seq<int>): (r: int)
    requires |s| > 0
    ensures r in s
    ensures forall i :: 0 <= i < |s| ==> r <= s[i]
  {
    if |s| == 1 then s[0]
    else
      var m := Min(s[1..]);
      if s[0] <= m then s[0] else m
  }

  /** `Series.max()`. */
  function Max(s: seq<int>): (r: int)
    requires |s| > 0
    ensures r in s
    ensures forall i :: 0 <= i < |s| ==> s[i] <= r
  {
    if |s| == 1 then s[0]
    else
      var m := Max(s[1..]);
      if s[0] >= m then s[0] else m
  }

  /** The result of `first_last_common`: earliest, latest and most common value. */
  datatype Spread = Spread(earliest: int, latest: int, mostCommon: int)

  /**
   * `first_last_common` on a numeric column with missing entries: pandas skips
   * them for all three reductions, and fails when nothing is left.
   */
  function FirstLastCommon(col: seq<Option<int>>): (r: Spread)
    requires exists i :: 0 <= i < |col| && col[i].Some?
    ensures Some(r.earliest) in col && Some(r.latest) in col && Some(r.mostCommon) in col
    ensures forall i :: 0 <= i < |col| && col[i].Some? ==> r.earliest <= col[i].value <= r.latest
    ensures IsMode(Present(col), IntLe, r.mostCommon)
    ensures r.earliest <= r.mostCommon <= r.latest
  {
    var i :| 0 <= i < |col| && col[i].Some?;
    var vals := Present(col);
    PresentMembership(col, col[i].value);
    IntLeIsTotalOrder();
    var r := Spread(Min(vals), Max(vals), Mode(vals, IntLe));
    PresentMembership(col, r.earliest);
    PresentMembership(col, r.latest);
    PresentMembership(col, r.mostCommon);
    assert forall j :: 0 <= j < |col| && col[j].Some? ==> col[j].value in vals by {
      forall j | 0 <= j < |col| && col[j].Some? ensures col[j].value in vals {
        PresentMembership(col, col[j].value);
      }
    }
    r
  }

  // ---------------------------------------------------------------- count_all

  /** One row of the `count_all` table: a distinct value and how often it occurs. */
  datatype Tally<T> = Tally(value: T, count: nat)

  /** No element repeats and the elements ascend in `le`. */
  ghost predicate StrictlyAscending<T>(ks: seq<T>, le: (T, T) -> bool) {
    forall i, j :: 0 <= i < j < |ks| ==> le(ks[i], ks[j]) && ks[i] != ks[j]
  }

  /** Adds `x` to an ascending list of distinct keys, where it sorts. */
  function Insert<T(==,!new)>(ks: seq<T>, x: T, le: (T, T) -> bool): (r: seq<T>)
    requires TotalOrder(le) && StrictlyAscending(ks, le)
    ensures StrictlyAscending(r, le)
    ensures forall y :: y in r <==> y in ks || y == x
  {
    if |ks| == 0 then [x]
    else if ks[0] == x then ks
    else if le(x, ks[0]) then [x] + ks
    else
      var rest := Insert(ks[1..], x, le);
      assert forall y :: y in ks <==> y == ks[0] || y in ks[1..] by {
        assert ks == [ks[0]] + ks[1..];
      }
      forall y | y in rest ensures le(ks[0], y) && ks[0] != y {
        if y in ks[1..] {
          var j :| 0 <= j < |ks[1..]| && ks[1..][j] == y;
          assert ks[j + 1] == y;
        }
      }
      ConsAscending(ks[0], rest, le);
      [ks[0]] + rest
  }

  lemma ConsAscending<T>(k: T, ks: seq<T>, le: (T, T) -> bool)
    requires StrictlyAscending(ks, le)
    requires forall y :: y in ks ==> le(k, y) && k != y
    ensures StrictlyAscending([k] + ks, le)
  {
  }

  /** The distinct values of `s` in ascending order: the group keys of `groupby`. */
  function Distinct<T(==,!new)>(s: seq<T>, le: (T, T) -> bool): (r: seq<T>)
    requires TotalOrder(le)
    ensures StrictlyAscending(r, le)
    ensures forall y :: y in r <==> y in s
  {
    if |s| == 0 then []
    else
      assert forall y :: y in s <==> y == s[0] || y in s[1..] by {
        assert s == [s[0]] + s[1..];
      }
      Insert(Distinct(s[1..], le), s[0], le)
  }

  /** Pairs each key with its multiplicity in `m`. */
  function Tallies<T(==)>(ks: seq<T>, m: multiset<T>): (r: seq<Tally<T>>)
    ensures |r| == |ks|
    ensures forall i :: 0 <= i < |ks| ==> r[i].value == ks[i] && r[i].count == m[ks[i]]
  {
    if |ks| == 0 then [] else [Tally(ks[0], m[ks[0]])] + Tallies(ks[1..], m)
  }

  /** The values column of a `count_all` table. */
  function Values<T>(t: seq<Tally<T>>): (r: seq<T>)
    ensures |r| == |t|
    ensures forall i :: 0 <= i < |t| ==> r[i] == t[i].value
  {
    if |t| == 0 then [] else [t[0].value] + Values(t[1..])
  }

  /** The sum of the count column. */
  function TotalCount<T>(t: seq<Tally<T>>): nat {
    if |t| == 0 then 0 else t[0].count + TotalCount(t[1..])
  }

  /**
   * `count_all`: for a present column, one row per distinct non-missing value
   * in ascending order, with the number of its occurrences; for an absent
   * column, no table.
   */
  function CountAll<T(==,!new)>(col: Option<seq<Option<T>>>, le: (T, T) -> bool): (r: Option<seq<Tally<T>>>)
    requires TotalOrder(le)
    ensures r.Some? <==> col.Some?
    ensures r.Some? ==> StrictlyAscending(Values(r.value), le)
    ensures r.Some? ==> forall x :: x in Values(r.value) <==> Some(x) in col.value
    ensures r.Some? ==> forall i :: 0 <= i < |r.value| ==>
      r.value[i].count == multiset(col.value)[Some(r.value[i].value)] && r.value[i].count >= 1
    ensures r.Some? ==> TotalCount(r.value) == |col.value| - multiset(col.value)[None]
  {
    match col
    case None => None
    case Some(c) =>
      var vals := Present(c);
      TalliesOfColumn(c, le);
      Some(Tallies(Distinct(vals, le), multiset(vals)))
  }

  /** The table `count_all` builds for a present column, described value by value. */
  lemma TalliesOfColumn<T(!new)>(c: seq<Option<T>>, le: (T, T) -> bool)
    requires TotalOrder(le)
    ensures var t := Tallies(Distinct(Present(c), le), multiset(Present(c)));
      && StrictlyAscending(Values(t), le)
      && (forall x :: x in Values(t) <==> Some(x) in c)
      && (forall i :: 0 <= i < |t| ==> t[i].count == multiset(c)[Some(t[i].value)] && t[i].count >= 1)
      && TotalCount(t) == |c| - multiset(c)[None]
  {
    var vals := Present(c);
    var ks := Distinct(vals, le);
    var t := Tallies(ks, multiset(vals));
    assert Values(t) == ks;
    forall x ensures x in ks <==> Some(x) in c {
      PresentMembership(c, x);
    }
    forall i | 0 <= i < |t| ensures t[i].count >= 1 {
      assert ks[i] in vals;
    }
    SumOfTallies(ks, vals, le);
  }

  /** In a list of distinct keys, each member occurs once. */
  lemma {:induction false} DistinctOccursOnce<T>(ks: seq<T>, le: (T, T) -> bool, a: T)
    requires StrictlyAscending(ks, le)
    requires a in ks
    ensures multiset(ks)[a] == 1
  {
    assert ks == [ks[0]] + ks[1..];
    if ks[0] == a {
      assert a !in ks[1..];
    } else {
      DistinctOccursOnce(ks[1..], le, a);
    }
  }

  /** One more occurrence of `a` adds the number of times `a` is a key to the total. */
  lemma {:induction false} TalliesAddOne<T>(ks: seq<T>, m: multiset<T>, a: T)
    ensures TotalCount(Tallies(ks, m + multiset{a})) == TotalCount(Tallies(ks, m)) + multiset(ks)[a]
  {
    if |ks| > 0 {
      assert ks == [ks[0]] + ks[1..];
      TalliesAddOne(ks[1..], m, a);
    }
  }

  /** The counts of distinct keys covering `p` add up to the length of `p`. */
  lemma {:induction false} SumOfTallies<T>(ks: seq<T>, p: seq<T>, le: (T, T) -> bool)
    requires StrictlyAscending(ks, le)
    requires forall x :: x in p ==> x in ks
    ensures TotalCount(Tallies(ks, multiset(p))) == |p|
  {
    if |p| == 0 {
      ZeroTallies(ks);
    } else {
      var q := p[..|p| - 1];
      var a := p[|p| - 1];
      assert p == q + [a];
      assert multiset(p) == multiset(q) + multiset{a};
      SumOfTallies(ks, q, le);
      TalliesAddOne(ks, multiset(q), a);
      DistinctOccursOnce(ks, le, a);
    }
  }

  lemma {:induction false} ZeroTallies<T>(ks: seq<T>)
    ensures TotalCount(Tallies(ks, multiset{})) == 0
  {
    if |ks| > 0 {
      ZeroTallies(ks[1..]);
    }
  }

  // ---------------------------------------------------------------- durations

  /** `math.ceil(a / b)` on non-negative integers. */
  function CeilDiv(a: nat, b: nat): (r: nat)
    requires b > 0
    ensures a <= r * b < a + b
  {
    if a % b == 0 then a / b else a / b + 1
  }

  /** The bounds of `CeilDiv` single out its value. */
  lemma CeilDivUnique(a: nat, b: nat, r: nat)
    requires b > 0
    requires a <= r * b < a + b
    ensures r == CeilDiv(a, b)
  {
    var c := CeilDiv(a, b);
    assert b * r < b * (c + 1) by {
      assert b * (c + 1) == c * b + b;
    }
    ScaledLess(r, c + 1, b);
    assert b * c < b * (r + 1) by {
      assert b * (r + 1) == r * b + b;
    }
    ScaledLess(c, r + 1, b);
  }

  /** Scaling by a positive factor keeps a strict inequality. */
  lemma ScaledLess(x: int, y: int, k: int)
    requires k > 0 && k * x < k * y
    ensures x < y
  {
  }

  /**
   * If `t` minutes round up `s` seconds and `m` rounds up `s` seconds shared
   * over `n` trips, then `m` rounds up `t` shared over `n`.
   */
  lemma CeilOfCeil(s: nat, n: nat, t: nat, m: nat)
    requires n > 0
    requires s <= t * 60 < s + 60
    requires s <= m * (60 * n) < s + 60 * n
    ensures t <= m * n < t + n
  {
  }

  /** `.sum()` of a column of whole seconds. */
  function Sum(ds: seq<nat>): (r: nat)
    ensures forall i :: 0 <= i < |ds| ==> ds[i] <= r
    ensures r == 0 <==> forall i :: 0 <= i < |ds| ==> ds[i] == 0
  {
    if |ds| == 0 then 0 else ds[0] + Sum(ds[1..])
  }

  /** The sum of two columns placed end to end is the sum of their sums. */
  lemma {:induction false} SumConcat(a: seq<nat>, b: seq<nat>)
    ensures Sum(a + b) == Sum(a) + Sum(b)
  {
    if |a| > 0 {
      assert (a + b)[1..] == a[1..] + b;
      SumConcat(a[1..], b);
    } else {
      assert a + b == b;
    }
  }

  /** `ceil(df['Trip Duration'].sum() / 60)`: total travel time in whole minutes, rounded up. */
  function TotalMinutes(ds: seq<nat>): (r: nat)
    ensures Sum(ds) <= r * 60 < Sum(ds) + 60
  {
    CeilDiv(Sum(ds), 60)
  }

  /**
   * `ceil(df['Trip Duration'].mean() / 60)`: mean travel time in whole minutes,
   * rounded up; the mean of no trips is NaN, and `math.ceil` of it raises `ValueError`.
   */
  function MeanMinutes(ds: seq<nat>): (r: nat)
    requires |ds| > 0
    ensures Sum(ds) <= r * (60 * |ds|) < Sum(ds) + 60 * |ds|
  {
    CeilDiv(Sum(ds), 60 * |ds|)
  }

  /** The mean is the rounded-up total shared out over the trips, again rounded up. */
  lemma MeanFromTotal(ds: seq<nat>)
    requires |ds| > 0
    ensures MeanMinutes(ds) == CeilDiv(TotalMinutes(ds), |ds|)
    ensures MeanMinutes(ds) <= TotalMinutes(ds)
  {
    var n, t, m := |ds|, TotalMinutes(ds), MeanMinutes(ds);
    CeilOfCeil(Sum(ds), n, t, m);
    CeilDivUnique(t, n, m);
    SharedNoMore(t, n, m);
  }

  /** Rounding up a share of `t` over at least one trip never exceeds `t`. */
  lemma SharedNoMore(t: nat, n: nat, m: nat)
    requires n > 0
    requires m * n < t + n
    ensures m <= t
  {
    assert t <= t * n;
    assert n * m < n * (t + 1);
    ScaledLess(m, t + 1, n);
  }

  /** Trips of 61, 119 and 180 seconds take 6 minutes in all and 2 on average. */
  lemma DurationExample()
    ensures TotalMinutes([61, 119, 180]) == 6
    ensures MeanMinutes([61, 119, 180]) == 2
  {
  }
}

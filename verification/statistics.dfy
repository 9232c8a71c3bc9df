/**
 * The aggregates a day's summary is made of: Python's `min` and `max`, and
 * `statistics.mean` and `statistics.median`, on exact real numbers.
 */
module Statistics {

  function Sum(s: seq<real>): real
  {
    if s == [] then 0.0 else s[0] + Sum(s[1..])
  }

  /** `min(s)`: an element of `s` that no element is below. */
  function Min(s: seq<real>): (m: real)
    requires s != []
    ensures m in s
    ensures forall x :: x in s ==> m <= x
  {
    if |s| == 1 then s[0]
    else
      var rest := Min(s[1..]);
      assert forall x :: x in s ==> x == s[0] || x in s[1..];
      if s[0] <= rest then s[0] else rest
  }

  /** `max(s)`: an element of `s` that no element is above. */
  function Max(s: seq<real>): (m: real)
    requires s != []
    ensures m in s
    ensures forall x :: x in s ==> x <= m
  {
    if |s| == 1 then s[0]
    else
      var rest := Max(s[1..]);
      assert forall x :: x in s ==> x == s[0] || x in s[1..];
      if rest <= s[0] then s[0] else rest
  }

  /** `statistics.mean(s)`: the sum divided by the count. */
  function Mean(s: seq<real>): real
    requires s != []
  {
    Sum(s) / |s| as real
  }

  ghost predicate Ascending(s: seq<real>)
  {
    forall i, j :: 0 <= i < j < |s| ==> s[i] <= s[j]
  }

  /** Places `x` before the first element it does not exceed. */
  function Insert(s: seq<real>, x: real): seq<real>
  {
    if s == [] || x <= s[0] then [x] + s
    else [s[0]] + Insert(s[1..], x)
  }

  /** `sorted(s)`, as `statistics.median` uses it: insertion sort. */
  function Sort(s: seq<real>): seq<real>
  {
    if s == [] then [] else Insert(Sort(s[1..]), s[0])
  }

  /** Inserting adds exactly `x` to the values. */
  lemma {:induction false} InsertValues(s: seq<real>, x: real)
    ensures multiset(Insert(s, x)) == multiset(s) + multiset{x}
  {
    if s != [] && !(x <= s[0]) {
      InsertValues(s[1..], x);
      assert s == [s[0]] + s[1..];
    }
  }

  /** Inserting into ascending values keeps them ascending. */
  lemma {:induction false} InsertAscending(s: seq<real>, x: real)
    requires Ascending(s)
    ensures Ascending(Insert(s, x))
  {
    if s == [] {
    } else if x <= s[0] {
      assert forall j :: 0 <= j < |s| ==> x <= s[j];
      AscendingCons(x, s);
    } else {
      var rest := s[1..];
      var tail := Insert(rest, x);
      AscendingTail(s);
      InsertAscending(rest, x);
      InsertValues(rest, x);
      assert forall j :: 0 <= j < |rest| ==> s[0] <= rest[j] by {
        assert forall j :: 0 <= j < |rest| ==> rest[j] == s[j + 1];
      }
      BoundedByMultiset(s[0], tail, rest, x);
      AscendingCons(s[0], tail);
    }
  }

  /** `Sort` returns the same values, ascending. */
  lemma {:induction false} SortSpec(s: seq<real>)
    ensures Ascending(Sort(s))
    ensures multiset(Sort(s)) == multiset(s)
    ensures |Sort(s)| == |s|
  {
    if s != [] {
      SortSpec(s[1..]);
      InsertAscending(Sort(s[1..]), s[0]);
      InsertValues(Sort(s[1..]), s[0]);
      assert s == [s[0]] + s[1..];
    }
    assert |Sort(s)| == |multiset(Sort(s))| == |multiset(s)| == |s|;
  }

  lemma AscendingCons(h: real, t: seq<real>)
    requires Ascending(t) && forall j :: 0 <= j < |t| ==> h <= t[j]
    ensures Ascending([h] + t)
  {
    var r := [h] + t;
    forall i, j | 0 <= i < j < |r|
      ensures r[i] <= r[j]
    {
      assert r[j] == t[j - 1];
      if i > 0 {
        assert r[i] == t[i - 1];
      }
    }
  }

  /** A lower bound of `x` and of every element of `u` bounds `u` with `x` added, in any order. */
  lemma BoundedByMultiset(lo: real, t: seq<real>, u: seq<real>, x: real)
    requires multiset(t) == multiset(u) + multiset{x}
    requires lo <= x && forall j :: 0 <= j < |u| ==> lo <= u[j]
    ensures forall j :: 0 <= j < |t| ==> lo <= t[j]
  {
    forall j | 0 <= j < |t|
      ensures lo <= t[j]
    {
      assert t[j] in multiset(t);
      if t[j] != x {
        assert t[j] in multiset(u);
      }
    }
  }

  /**
   * `statistics.median(s)`: the middle element of the sorted values, or
   * the average of the two middle elements when the count is even.
   */
  function Median(s: seq<real>): real
    requires s != []
  {
    SortSpec(s);
    Middle(Sort(s))
  }

  /** The middle element, or the average of the two middle elements. */
  function Middle(t: seq<real>): real
    requires t != []
  {
    var n := |t|;
    if n % 2 == 1 then t[n / 2] else (t[n / 2 - 1] + t[n / 2]) / 2.0
  }

  /** The sum of values between `lo` and `hi` lies between count times each. */
  lemma {:induction false} SumBounds(s: seq<real>, lo: real, hi: real)
    requires forall x :: x in s ==> lo <= x <= hi
    ensures |s| as real * lo <= Sum(s) <= |s| as real * hi
  {
    if s != [] {
      var rest := s[1..];
      assert forall x :: x in rest ==> lo <= x <= hi by {
        assert forall x :: x in rest ==> x in s;
      }
      SumBounds(rest, lo, hi);
      assert lo <= s[0] <= hi by {
        assert s[0] in s;
      }
      var m := |rest| as real;
      assert |s| as real == m + 1.0;
      OneMore(m, lo);
      OneMore(m, hi);
    }
  }

  lemma OneMore(m: real, c: real)
    ensures (m + 1.0) * c == m * c + c
  {
  }

  /** A quotient by a positive count keeps the bounds the dividend has. */
  lemma QuotientBounds(total: real, n: real, lo: real, hi: real)
    requires n > 0.0 && n * lo <= total <= n * hi
    ensures lo <= total / n <= hi
  {
    var q := total / n;
    assert q * n == total;
    assert n * (q - lo) >= 0.0;
    assert n * (hi - q) >= 0.0;
  }

  lemma MeanTimesCount(s: seq<real>)
    requires s != []
    ensures Mean(s) * |s| as real == Sum(s)
  {
  }

  lemma MeanBounds(s: seq<real>)
    requires s != []
    ensures Min(s) <= Mean(s) <= Max(s)
  {
    SumBounds(s, Min(s), Max(s));
    QuotientBounds(Sum(s), |s| as real, Min(s), Max(s));
  }

  lemma MedianBounds(s: seq<real>)
    requires s != []
    ensures Min(s) <= Median(s) <= Max(s)
  {
    SortSpec(s);
    var t := Sort(s);
    var lo, hi := Min(s), Max(s);
    assert forall i :: 0 <= i < |t| ==> lo <= t[i] <= hi by {
      forall i | 0 <= i < |t| ensures lo <= t[i] <= hi {
        assert t[i] in multiset(t);
        assert t[i] in s;
      }
    }
    assert Median(s) == Middle(t);
  }

  lemma HeadIsLeast(s: seq<real>)
    requires s != [] && Ascending(s)
    ensures forall x :: x in multiset(s) ==> s[0] <= x
  {
    forall x | x in multiset(s)
      ensures s[0] <= x
    {
      assert x in s;
    }
  }

  /** Two ascending sequences holding the same values are equal. */
  lemma {:induction false} AscendingUnique(a: seq<real>, b: seq<real>)
    requires Ascending(a) && Ascending(b)
    requires multiset(a) == multiset(b)
    ensures a == b
  {
    assert |a| == |multiset(a)| == |multiset(b)| == |b|;
    if a != [] {
      HeadIsLeast(a);
      HeadIsLeast(b);
      assert a[0] in multiset(b) && b[0] in multiset(a);
      assert a[0] == b[0];
      assert multiset(a) == multiset{a[0]} + multiset(a[1..]) by {
        assert a == [a[0]] + a[1..];
      }
      assert multiset(b) == multiset{b[0]} + multiset(b[1..]) by {
        assert b == [b[0]] + b[1..];
      }
      assert multiset(a[1..]) == multiset(b[1..]) by {
        forall x
          ensures multiset(a[1..])[x] == multiset(b[1..])[x]
        {
          assert multiset(a)[x] == multiset{a[0]}[x] + multiset(a[1..])[x];
          assert multiset(b)[x] == multiset{b[0]}[x] + multiset(b[1..])[x];
        }
      }
      AscendingTail(a);
      AscendingTail(b);
      AscendingUnique(a[1..], b[1..]);
      assert a == [a[0]] + a[1..] && b == [b[0]] + b[1..];
    }
  }

  lemma AscendingTail(s: seq<real>)
    requires s != [] && Ascending(s)
    ensures Ascending(s[1..])
  {
    forall i, j | 0 <= i < j < |s[1..]|
      ensures s[1..][i] <= s[1..][j]
    {
      assert s[1..][i] == s[i + 1] && s[1..][j] == s[j + 1];
    }
  }

  /** The median depends only on the values, not on their order. */
  lemma MedianOfPermutation(a: seq<real>, b: seq<real>)
    requires a != [] && multiset(a) == multiset(b)
    ensures b != [] && Median(a) == Median(b)
  {
    assert |a| == |b| by {
      assert |multiset(a)| == |multiset(b)|;
    }
    SortSpec(a);
    SortSpec(b);
    AscendingUnique(Sort(a), Sort(b));
  }

  /** On values already in order, the median is read off the middle. */
  lemma MedianOfAscending(s: seq<real>)
    requires s != [] && Ascending(s)
    ensures |s| % 2 == 1 ==> Median(s) == s[|s| / 2]
    ensures |s| % 2 == 0 ==> Median(s) == (s[|s| / 2 - 1] + s[|s| / 2]) / 2.0
  {
    SortSpec(s);
    AscendingUnique(Sort(s), s);
  }
}

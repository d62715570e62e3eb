/** Quantiles of a column of tumor volumes with pandas' default method:
    sort the values and interpolate linearly at position (n - 1) * q. Reals
    stand for the float64 column, so the arithmetic here is exact. */
module Quantiles {

  predicate Sorted(s: seq<real>)
  {
    forall i, j :: 0 <= i < j < |s| ==> s[i] <= s[j]
  }

  function InsertSorted(x: real, s: seq<real>): (r: seq<real>)
    requires Sorted(s)
    ensures Sorted(r) && |r| == |s| + 1
    ensures multiset(r) == multiset(s) + multiset{x}
  {
    if s == [] then [x]
    else if x <= s[0] then [x] + s
    else
      assert s == [s[0]] + s[1..];
      var t := InsertSorted(x, s[1..]);
      HeadOfSorted(s[0], x, s[1..], t);
      [s[0]] + t
  }

  /** A value no larger than every element of a sorted list may go in front. */
  lemma HeadOfSorted(h: real, x: real, s: seq<real>, t: seq<real>)
    requires h <= x && Sorted([h] + s) && Sorted(t)
    requires multiset(t) == multiset(s) + multiset{x}
    ensures Sorted([h] + t)
  {
    var r := [h] + t;
    forall i, j | 0 <= i < j < |r| ensures r[i] <= r[j] {
      if i == 0 {
        assert r[j] == t[j - 1] && t[j - 1] in multiset(t);
        if r[j] != x {
          assert r[j] in multiset(s);
          var k :| 0 <= k < |s| && s[k] == r[j];
          assert ([h] + s)[0] == h && ([h] + s)[k + 1] == s[k];
        }
      } else {
        assert r[i] == t[i - 1] && r[j] == t[j - 1];
      }
    }
  }

  /** The values in ascending order. */
  function SortValues(s: seq<real>): (r: seq<real>)
    ensures Sorted(r) && |r| == |s|
    ensures multiset(r) == multiset(s)
  {
    if s == [] then []
    else
      assert s == s[..|s| - 1] + [s[|s| - 1]];
      InsertSorted(s[|s| - 1], SortValues(s[..|s| - 1]))
  }

  /** Two sorted lists with the same values are the same list. */
  lemma {:induction false} SortedUnique(a: seq<real>, b: seq<real>)
    requires Sorted(a) && Sorted(b) && multiset(a) == multiset(b)
    ensures a == b
  {
    if a != [] {
      assert |b| == |multiset(b)| == |multiset(a)| == |a|;
      SameHead(a, b);
      SortedTail(a);
      SortedTail(b);
      assert a == [a[0]] + a[1..] && b == [b[0]] + b[1..];
      assert multiset(a[1..]) == multiset(a) - multiset{a[0]};
      assert multiset(b[1..]) == multiset(b) - multiset{b[0]};
      SortedUnique(a[1..], b[1..]);
    }
  }

  /** Two non-empty sorted lists with the same values start alike. */
  lemma SameHead(a: seq<real>, b: seq<real>)
    requires Sorted(a) && Sorted(b) && multiset(a) == multiset(b) && a != [] && b != []
    ensures a[0] == b[0]
  {
    assert a[0] in multiset(b) && b[0] in multiset(a);
    var i :| 0 <= i < |b| && b[i] == a[0];
    var j :| 0 <= j < |a| && a[j] == b[0];
  }

  lemma SortedTail(a: seq<real>)
    requires Sorted(a) && a != []
    ensures Sorted(a[1..])
  {
  }

  /** numpy's linear interpolation at fractional position h of a sorted
      list: between the values at floor(h) and floor(h) + 1, in proportion
      to the fractional part. At a whole position it is the value there. */
  function Interpolate(s: seq<real>, h: real): (r: real)
    requires 0 < |s| && 0.0 <= h <= (|s| - 1) as real
    ensures h == h.Floor as real ==> r == s[h.Floor]
  {
    var lo := h.Floor;
    if lo + 1 < |s| then s[lo] + (h - lo as real) * (s[lo + 1] - s[lo]) else s[lo]
  }

  /** Series.quantile(q): the interpolated value at position (n - 1) * q of
      the sorted values, which never leaves the range of the sorted values. */
  function Quantile(vals: seq<real>, q: real): (r: real)
    requires |vals| > 0 && 0.0 <= q <= 1.0
    ensures SortValues(vals)[0] <= r <= SortValues(vals)[|vals| - 1]
  {
    var s := SortValues(vals);
    var h := Position(|vals| - 1, q);
    var n := |vals| - 1;
    InterpolateBetween(s, h);
    assert s[0] <= s[h.Floor] && s[h.Floor] <= s[n];
    assert h.Floor + 1 <= n ==> s[h.Floor + 1] <= s[n];
    Interpolate(s, h)
  }

  /** The position (n - 1) * q, which stays within the list. */
  function Position(last: nat, q: real): (h: real)
    requires 0.0 <= q <= 1.0
    ensures 0.0 <= h <= last as real
  {
    MulNonneg(last as real, q);
    MulNonneg(last as real, 1.0 - q);
    last as real * q
  }

  /** A larger q gives a later position. */
  lemma PositionMonotone(last: nat, q1: real, q2: real)
    requires 0.0 <= q1 <= q2 <= 1.0
    ensures Position(last, q1) <= Position(last, q2)
  {
    MulNonneg(last as real, q2 - q1);
  }

  lemma MulNonneg(x: real, y: real)
    requires 0.0 <= x && 0.0 <= y
    ensures 0.0 <= x * y
  {
  }

  /** The smallest value. */
  function Min(vals: seq<real>): (m: real)
    requires |vals| > 0
    ensures m in vals
    ensures forall i :: 0 <= i < |vals| ==> m <= vals[i]
  {
    if |vals| == 1 then vals[0]
    else
      var m := Min(vals[1..]);
      assert forall i :: 0 < i < |vals| ==> vals[i] == vals[1..][i - 1];
      if vals[0] <= m then vals[0] else m
  }

  /** The largest value. */
  function Max(vals: seq<real>): (m: real)
    requires |vals| > 0
    ensures m in vals
    ensures forall i :: 0 <= i < |vals| ==> vals[i] <= m
  {
    if |vals| == 1 then vals[0]
    else
      var m := Max(vals[1..]);
      assert forall i :: 0 < i < |vals| ==> vals[i] == vals[1..][i - 1];
      if vals[0] >= m then vals[0] else m
  }

  /** The interpolated value lies between its two neighbours. */
  lemma InterpolateBetween(s: seq<real>, h: real)
    requires Sorted(s) && 0 < |s| && 0.0 <= h <= (|s| - 1) as real
    ensures s[h.Floor] <= Interpolate(s, h)
    ensures h.Floor + 1 < |s| ==> Interpolate(s, h) <= s[h.Floor + 1]
    ensures h.Floor + 1 >= |s| ==> Interpolate(s, h) == s[h.Floor]
  {
    var lo := h.Floor;
    if lo + 1 < |s| {
      var f := h - lo as real;
      var d := s[lo + 1] - s[lo];
      assert 0.0 <= f < 1.0 && d >= 0.0;
      MulNonneg(f, d);
      MulNonneg(1.0 - f, d);
      assert Interpolate(s, h) == s[lo] + f * d;
    }
  }

  /** Interpolation is monotone in the position. */
  lemma InterpolateMonotone(s: seq<real>, h1: real, h2: real)
    requires Sorted(s) && 0 < |s| && 0.0 <= h1 <= h2 <= (|s| - 1) as real
    ensures Interpolate(s, h1) <= Interpolate(s, h2)
  {
    var lo1, lo2 := h1.Floor, h2.Floor;
    InterpolateBetween(s, h1);
    InterpolateBetween(s, h2);
    if lo1 == lo2 {
      if lo1 + 1 < |s| {
        var d := s[lo1 + 1] - s[lo1];
        MulNonneg(h2 - h1, d);
        assert (h2 - lo1 as real) * d == (h1 - lo1 as real) * d + (h2 - h1) * d;
      }
    } else {
      assert lo1 < lo2;
      assert s[lo1 + 1] <= s[lo2];
    }
  }

  /** A larger q never gives a smaller quantile. */
  lemma QuantileMonotone(vals: seq<real>, q1: real, q2: real)
    requires |vals| > 0 && 0.0 <= q1 <= q2 <= 1.0
    ensures Quantile(vals, q1) <= Quantile(vals, q2)
  {
    PositionMonotone(|vals| - 1, q1, q2);
    InterpolateMonotone(SortValues(vals), Position(|vals| - 1, q1), Position(|vals| - 1, q2));
  }

  /** Every quantile lies between the smallest and the largest value; the
      0-quantile is the smallest and the 1-quantile the largest. */
  lemma QuantileRange(vals: seq<real>, q: real)
    requires |vals| > 0 && 0.0 <= q <= 1.0
    ensures Min(vals) <= Quantile(vals, q) <= Max(vals)
    ensures Quantile(vals, 0.0) == Min(vals) && Quantile(vals, 1.0) == Max(vals)
  {
    QuantileMonotone(vals, 0.0, q);
    QuantileMonotone(vals, q, 1.0);
    QuantileEnds(vals);
    SortedEnds(vals);
  }

  /** The 0-quantile is the first sorted value and the 1-quantile the last. */
  lemma QuantileEnds(vals: seq<real>)
    requires |vals| > 0
    ensures Quantile(vals, 0.0) == SortValues(vals)[0]
    ensures Quantile(vals, 1.0) == SortValues(vals)[|vals| - 1]
  {
    var n := |vals| - 1;
    assert Position(n, 0.0) == 0.0;
    assert Position(n, 1.0) == n as real;
    assert (n as real).Floor == n;
  }

  /** Sorting puts the smallest value first and the largest last. */
  lemma SortedEnds(vals: seq<real>)
    requires |vals| > 0
    ensures SortValues(vals)[0] == Min(vals) && SortValues(vals)[|vals| - 1] == Max(vals)
  {
    var s := SortValues(vals);
    SortedFirst(s, vals, Min(vals));
    SortedLast(s, vals, Max(vals));
  }

  lemma SortedFirst(s: seq<real>, vals: seq<real>, m: real)
    requires Sorted(s) && multiset(s) == multiset(vals) && |s| > 0
    requires m in vals && forall i :: 0 <= i < |vals| ==> m <= vals[i]
    ensures s[0] == m
  {
    assert m in multiset(s) && s[0] in multiset(vals);
    var i :| 0 <= i < |s| && s[i] == m;
    var a :| 0 <= a < |vals| && vals[a] == s[0];
  }

  lemma SortedLast(s: seq<real>, vals: seq<real>, m: real)
    requires Sorted(s) && multiset(s) == multiset(vals) && |s| > 0
    requires m in vals && forall i :: 0 <= i < |vals| ==> vals[i] <= m
    ensures s[|s| - 1] == m
  {
    assert m in multiset(s) && s[|s| - 1] in multiset(vals);
    var i :| 0 <= i < |s| && s[i] == m;
    var a :| 0 <= a < |vals| && vals[a] == s[|s| - 1];
  }

  /** Sorting a list that is already in order leaves it as it is. */
  lemma SortValuesOfSorted(s: seq<real>)
    requires Sorted(s)
    ensures SortValues(s) == s
  {
    SortedUnique(SortValues(s), s);
  }

  /** The quantile depends on the values only, not on their order. */
  lemma QuantileOrderIndependent(a: seq<real>, b: seq<real>, q: real)
    requires |a| > 0 && 0.0 <= q <= 1.0 && multiset(a) == multiset(b)
    ensures |b| == |a| && Quantile(a, q) == Quantile(b, q)
  {
    assert |a| == |multiset(a)| == |multiset(b)| == |b|;
    SortedUnique(SortValues(a), SortValues(b));
  }
}
